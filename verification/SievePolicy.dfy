/**
 SIEVE: one list in insertion order and a hand that scans from the oldest item toward the newest. A visited item keeps
 its place and loses its counter, the first other one is evicted where it stands.
 */
module SievePolicies {
  import opened PolicyContract
  import opened QueuePasses
  import opened SieveLists

  const UNSET := -1

  /** Where a hand set on position `i` of a list of `n` nodes points: past the newest node it is unset. */
  function HandOn(i: nat, n: nat): int { if i < n then i else UNSET }

  /** The position the next scan starts from: an unset hand wraps to the oldest node. */
  function ScanFrom(at: int): nat
    requires at >= UNSET
  {
    if at == UNSET then 0 else at
  }

  /** The position `o` steps after `s` on a list of `n` nodes, wrapping to the oldest. */
  function Step(s: nat, o: nat, n: nat): (p: nat)
    requires s < n && o <= n
    ensures p < n
  {
    if s + o < n then s + o else s + o - n
  }

  predicate Unvisited(m: Meta, nowOff: nat) { m.Spent(nowOff) || m.chances == 0 }

  /** The items the scan has passed: visited ones lost their counters, nothing else changed. */
  ghost predicate Scanned(c: seq<QNode>, meta0: seq<Meta>, meta: seq<Meta>, nowOff: nat, s: nat, o: nat)
  {
    && InRange(c, |meta0|) && Distinct(c) && |meta| == |meta0| && s < |c| && o <= |c|
    && (forall k: nat | k < o ::
          !Unvisited(meta0[c[Step(s, k, |c|)].idx], nowOff)
          && meta[c[Step(s, k, |c|)].idx] == meta0[c[Step(s, k, |c|)].idx].(chances := 0))
    && (forall k: nat | o <= k < |c| :: meta[c[Step(s, k, |c|)].idx] == meta0[c[Step(s, k, |c|)].idx])
    && (forall x: nat | x < |meta| && x !in Indices(c) :: meta[x] == meta0[x])
  }

  /** The scan stops `o` steps on, at position `v`: the first unvisited node, or where it started after a full turn. */
  ghost predicate StopsAt(c: seq<QNode>, meta0: seq<Meta>, nowOff: nat, s: nat, o: nat, v: nat) {
    && InRange(c, |meta0|) && s < |c| && o <= |c| && v == Step(s, o, |c|)
    && (forall k: nat | k < o :: !Unvisited(meta0[c[Step(s, k, |c|)].idx], nowOff))
    && (o < |c| ==> Unvisited(meta0[c[v].idx], nowOff))
  }

  lemma ScanStarts(c: seq<QNode>, meta: seq<Meta>, nowOff: nat, s: nat)
    requires InRange(c, |meta|) && Distinct(c) && s < |c|
    ensures Scanned(c, meta, meta, nowOff, s, 0) && Step(s, 0, |c|) == s
  {
  }

  /** Two different steps of one turn are at different slots. */
  lemma StepsApart(c: seq<QNode>, s: nat, k: nat, o: nat)
    requires Distinct(c) && s < |c| && k < |c| && o < |c| && k != o
    ensures c[Step(s, k, |c|)].idx != c[Step(s, o, |c|)].idx
  {
    assert Step(s, k, |c|) != Step(s, o, |c|);
  }

  lemma ScanMoves(c: seq<QNode>, meta0: seq<Meta>, meta: seq<Meta>, nowOff: nat, s: nat, o: nat)
    requires Scanned(c, meta0, meta, nowOff, s, o)
    ensures c[Step(s, o, |c|)].idx < |meta|
    ensures !Unvisited(meta[c[Step(s, o, |c|)].idx], nowOff) ==>
              var x := c[Step(s, o, |c|)].idx;
              o < |c| && Scanned(c, meta0, meta[x := meta[x].(chances := 0)], nowOff, s, o + 1)
    ensures Unvisited(meta[c[Step(s, o, |c|)].idx], nowOff) ==>
              StopsAt(c, meta0, nowOff, s, o, Step(s, o, |c|))
  {
    hide Step;
    var p := Step(s, o, |c|);
    var x := c[p].idx;
    if o == |c| {
      assert Step(s, |c|, |c|) == Step(s, 0, |c|) by { FullTurn(s, |c|); }
    } else if !Unvisited(meta[x], nowOff) {
      var meta' := meta[x := meta[x].(chances := 0)];
      forall k: nat | k < |c| && k != o ensures meta'[c[Step(s, k, |c|)].idx] == meta[c[Step(s, k, |c|)].idx] {
        StepsApart(c, s, k, o);
      }
      assert Indices(c)[p] == x;
    }
  }

  lemma FullTurn(s: nat, n: nat)
    requires s < n
    ensures Step(s, n, n) == Step(s, 0, n)
  {
  }

  /** One step of the hand toward the newer end, wrapping past the newest. */
  lemma HandSteps(s: nat, o: nat, n: nat)
    requires s < n && o < n
    ensures ScanFrom(HandOn(Step(s, o, n) + 1, n)) == Step(s, o + 1, n)
  {
  }

  lemma {:induction false} KeptOne(node: QNode, dead: set<nat>)
    ensures Kept([node], dead) == if node.idx in dead then [] else [node]
  {
    assert [node][..0] == [] && [] + [node] == [node];
  }

  lemma {:induction false} KeptHead(c: seq<QNode>, i: nat, j: nat, dead: set<nat>)
    requires 0 < i <= j <= |c|
    ensures Kept(c[i - 1..j], dead) == (if c[i - 1].idx in dead then [] else [c[i - 1]]) + Kept(c[i..j], dead)
  {
    hide Kept;
    KeptConcat([c[i - 1]], c[i..j], dead);
    KeptOne(c[i - 1], dead);
    assert c[i - 1..j] == [c[i - 1]] + c[i..j];
  }

  /** The hand while a sweep from the newest end has reached position `i`: a dead node hands it on to the next newer
      survivor. */
  ghost function HandSwept(at0: int, c: seq<QNode>, dead: set<nat>, i: nat): int
    requires UNSET <= at0 < |c| && i <= |c|
  {
    if at0 < i then at0 else HandOn(i + |Kept(c[i..at0], dead)|, i + |Kept(c[i..], dead)|)
  }

  /** The sweep leaves a live node alone. */
  lemma SweepKeeps(c: seq<QNode>, dead: set<nat>, i: nat, at0: int)
    requires 0 < i <= |c| && c[i - 1].idx !in dead && UNSET <= at0 < |c|
    ensures c[..i] + Kept(c[i..], dead) == c[..i - 1] + Kept(c[i - 1..], dead)
    ensures HandSwept(at0, c, dead, i) == HandSwept(at0, c, dead, i - 1)
  {
    assert c[i - 1..] == c[i - 1..|c|] && c[i..] == c[i..|c|];
    KeptHead(c, i, |c|, dead);
    if at0 >= i {
      KeptHead(c, i, at0, dead);
    } else if at0 == i - 1 {
      assert c[i - 1..at0] == [];
    }
  }

  /** The sweep drops a dead node, the hand having been moved off it first. */
  lemma SweepDrops(c: seq<QNode>, dead: set<nat>, i: nat, at0: int)
    requires 0 < i <= |c| && c[i - 1].idx in dead && UNSET <= at0 < |c|
    ensures Removed(c[..i] + Kept(c[i..], dead), i - 1) == c[..i - 1] + Kept(c[i - 1..], dead)
    ensures var n, at := i + |Kept(c[i..], dead)|, HandSwept(at0, c, dead, i);
            HandSwept(at0, c, dead, i - 1) == Shifted(if at == i - 1 then HandOn(i, n) else at, i - 1)
  {
    assert c[i - 1..] == c[i - 1..|c|] && c[i..] == c[i..|c|];
    KeptHead(c, i, |c|, dead);
    if at0 >= i {
      KeptHead(c, i, at0, dead);
    } else if at0 == i - 1 {
      assert c[i - 1..at0] == [];
    }
  }

  /** A position after the node at `i` leaves the list. */
  function Shifted(at: int, i: nat): int { if at > i then at - 1 else at }

  lemma SweepEnds(c: seq<QNode>, dead: set<nat>, at0: int)
    requires UNSET <= at0 < |c|
    ensures c[..|c|] + Kept(c[|c|..], dead) == c && HandSwept(at0, c, dead, |c|) == at0
    ensures c[..0] + Kept(c[0..], dead) == Kept(c, dead)
    ensures HandSwept(at0, c, dead, 0) == if at0 == UNSET then UNSET
            else HandOn(|Kept(c[..at0], dead)|, |Kept(c, dead)|)
  {
    assert c[..|c|] == c && c[|c|..] == [] && c[0..] == c;
  }

  /** The list while a rebuild from the oldest end has reached node `i`. */
  ghost function Rebuilt(c: seq<QNode>, remap: map<nat, nat>, i: nat): seq<QNode>
    requires i <= |c|
  {
    Moved(c[..i], remap) + c[i..]
  }

  /** The hand at that moment. */
  ghost function HandRebuilt(at0: int, c: seq<QNode>, remap: map<nat, nat>, i: nat): int
    requires UNSET <= at0 < |c| && i <= |c|
  {
    if at0 == UNSET then UNSET
    else if at0 >= i then at0 - i + |Moved(c[..i], remap)|
    else HandOn(|Moved(c[..at0], remap)|, |Rebuilt(c, remap, i)|)
  }

  lemma {:induction false} MovedGrows(c: seq<QNode>, remap: map<nat, nat>, i: nat, j: nat)
    requires i <= j <= |c|
    ensures |Moved(c[..i], remap)| <= |Moved(c[..j], remap)|
    decreases j
  {
    hide Moved, Lost, Kept, Dropped;
    if i < j {
      MovedGrows(c, remap, i, j - 1);
      PassStep(c, j - 1, {}, remap);
    }
  }

  /** A live node follows its item to the new table. */
  lemma RebuildMoves(c: seq<QNode>, remap: map<nat, nat>, i: nat, at0: int)
    requires i < |c| && c[i].idx in remap && UNSET <= at0 < |c|
    ensures var m := |Moved(c[..i], remap)|;
            && m < |Rebuilt(c, remap, i)| && Rebuilt(c, remap, i)[m] == c[i]
            && Rebuilt(c, remap, i + 1) == Rebuilt(c, remap, i)[m := QNode(remap[c[i].idx], c[i].cost)]
            && m + 1 == |Moved(c[..i + 1], remap)|
    ensures HandRebuilt(at0, c, remap, i + 1) == HandRebuilt(at0, c, remap, i)
  {
    PassStep(c, i, {}, remap);
    if 0 <= at0 <= i {
      MovedGrows(c, remap, at0, i);
    }
  }

  /** A dropped node leaves the list, the hand having been moved off it first. */
  lemma RebuildDrops(c: seq<QNode>, remap: map<nat, nat>, i: nat, at0: int)
    requires i < |c| && c[i].idx !in remap && UNSET <= at0 < |c|
    ensures var m := |Moved(c[..i], remap)|;
            && m < |Rebuilt(c, remap, i)| && Rebuilt(c, remap, i)[m] == c[i]
            && Rebuilt(c, remap, i + 1) == Removed(Rebuilt(c, remap, i), m)
            && m == |Moved(c[..i + 1], remap)|
            && var at := HandRebuilt(at0, c, remap, i);
               HandRebuilt(at0, c, remap, i + 1)
                 == Shifted(if at == m then HandOn(m + 1, |Rebuilt(c, remap, i)|) else at, m)
  {
    PassStep(c, i, {}, remap);
    if 0 <= at0 <= i {
      MovedGrows(c, remap, at0, i);
    }
  }

  lemma RebuildEnds(c: seq<QNode>, remap: map<nat, nat>, at0: int)
    requires UNSET <= at0 < |c|
    ensures Rebuilt(c, remap, 0) == c && HandRebuilt(at0, c, remap, 0) == at0 && |Moved(c[..0], remap)| == 0
    ensures Rebuilt(c, remap, |c|) == Moved(c, remap)
    ensures HandRebuilt(at0, c, remap, |c|)
         == if at0 == UNSET then UNSET else HandOn(|Moved(c[..at0], remap)|, |Moved(c, remap)|)
  {
    assert c[..|c|] == c && c[|c|..] == [] && c[..0] == [];
  }

  lemma HeldOf(nodes: seq<SieveNode>, free: int, head: int, tail: int, list: seq<int>, spare: seq<int>)
    requires Shape(nodes, free, head, tail, list, spare)
    ensures forall i | 0 <= i < |list| :: 0 <= list[i] < |nodes|
  {
  }

  lemma RemovedStays(c: seq<QNode>, i: nat, n: nat)
    requires i < |c| && InRange(c, n) && Distinct(c)
    ensures InRange(Removed(c, i), n) && Distinct(Removed(c, i))
    ensures EvictsOne(c, Removed(c, i), c[i].idx)
  {
    RemovedOne(c, i);
  }

  lemma FreeIs(nodes: seq<SieveNode>, spare: seq<int>)
    requires Spares(nodes, spare)
    ensures At(spare, 0) == NO_LINK <==> spare == []
    ensures spare != [] ==> At(spare, 0) == spare[0]
  {
  }

  /** The newest node keeps the slots in range and apart. */
  lemma NewestStays(c: seq<QNode>, node: QNode, n: nat)
    requires InRange(c, n) && Distinct(c) && node.idx < n && node.idx !in Indices(c)
    ensures InRange(c + [node], n) && Distinct(c + [node])
  {
    forall i | 0 <= i < |c| ensures c[i].idx != node.idx {
      assert Indices(c)[i] == c[i].idx;
    }
  }

  lemma AttachedIs(nodes: seq<SieveNode>, cur: int, head: int, item: QNode)
    requires 0 <= cur < |nodes| && (head == NO_LINK || 0 <= head < |nodes|)
    ensures var placed := nodes[cur := SieveNode(item, NO_LINK, head)];
            Attached(nodes, cur, head, item) == if head != NO_LINK then placed[head := placed[head].(prev := cur)]
              else placed
  {
  }

  lemma DetachedIs(nodes: seq<SieveNode>, cur: int, free: int)
    requires 0 <= cur < |nodes|
    requires var node := nodes[cur];
             && (node.prev == NO_LINK || 0 <= node.prev < |nodes|) && (node.next == NO_LINK || 0 <= node.next < |nodes|)
    ensures var node := nodes[cur];
            var newer := if node.prev != NO_LINK then nodes[node.prev := nodes[node.prev].(next := node.next)]
              else nodes;
            var older := if node.next != NO_LINK then newer[node.next := newer[node.next].(prev := node.prev)]
              else newer;
            Detached(nodes, cur, free) == older[cur := SieveNode(QNode(0, 0), node.prev, free)]
  {
  }

  lemma AtLonger(list: seq<int>, cur: int, at: int)
    requires UNSET <= at < |list|
    ensures At(list + [cur], at) == At(list, at)
  {
  }

  /** The node the hand is on keeps its slot when another node leaves. */
  lemma HandShifts(list: seq<int>, i: nat, at: int)
    requires i < |list| && UNSET <= at < |list| && at != i
    ensures UNSET <= Shifted(at, i) < |list| - 1
    ensures At(Removed(list, i), Shifted(at, i)) == At(list, at)
  {
  }

  lemma HandMoves(list: seq<int>, v: nat)
    requires v < |list|
    ensures At(list, HandOn(v + 1, |list|)) == At(list, v + 1)
    ensures UNSET <= HandOn(v + 1, |list|) < |list| && HandOn(v + 1, |list|) != v
    ensures Shifted(HandOn(v + 1, |list|), v) == HandOn(v, |list| - 1)
  {
  }

  lemma ScanInRange(at: int, n: nat)
    requires UNSET <= at < n && n > 0
    ensures ScanFrom(at) < n
  {
  }

  lemma TailOrHand(list: seq<int>, at: int, tail: int, hand: int)
    requires list != [] && UNSET <= at < |list| && tail == At(list, 0) && hand == At(list, at)
    requires list[ScanFrom(at)] != NO_LINK
    ensures (if hand == NO_LINK then tail else hand) == list[ScanFrom(at)]
  {
  }

  lemma UnvisitedIs(m: Meta, nowOff: nat)
    ensures Unvisited(m, nowOff) <==> m.Spent(nowOff) || m.chances == 0
  {
  }

  lemma AtInside(list: seq<int>, i: int)
    ensures At(list, i) != NO_LINK ==> 0 <= i < |list| && At(list, i) == list[i]
  {
  }

  lemma PrefixStays(list: seq<int>, i: nat)
    requires i < |list|
    ensures At(Removed(list, i), i - 1) == At(list, i - 1)
  {
  }

  /** The slots still queued and those released are the ones the sweep found. */
  ghost predicate Accounted(all: seq<QNode>, c: seq<QNode>, released: seq<nat>) {
    multiset(Indices(all)) == multiset(Indices(c)) + multiset(released)
  }

  /** The list and the hand once a sweep from the newest end has reached position `i`. */
  ghost predicate SweptTo(all: seq<QNode>, at0: int, dead: set<nat>, i: nat, c: seq<QNode>, at: int) {
    && UNSET <= at0 < |all| && i <= |all|
    && c == all[..i] + Kept(all[i..], dead) && at == HandSwept(at0, all, dead, i)
  }

  lemma NoneReleased(c: seq<QNode>)
    ensures Accounted(c, c, [])
  {
  }

  lemma OneReleased(all: seq<QNode>, c: seq<QNode>, i: nat, released: seq<nat>)
    requires i < |c| && Accounted(all, c, released)
    ensures Accounted(all, Removed(c, i), released + [c[i].idx])
  {
    RemovedOne(c, i);
  }

  lemma SweepReaches(all: seq<QNode>, at0: int, dead: set<nat>, i: nat, c: seq<QNode>, at: int)
    requires SweptTo(all, at0, dead, i, c, at)
    ensures i <= |c| && (0 < i ==> c[i - 1] == all[i - 1])
    ensures 0 < i && all[i - 1].idx !in dead ==> SweptTo(all, at0, dead, i - 1, c, at)
    ensures 0 < i && all[i - 1].idx in dead ==>
              SweptTo(all, at0, dead, i - 1, Removed(c, i - 1),
                      Shifted(if at == i - 1 then HandOn(i, |c|) else at, i - 1))
  {
    if 0 < i {
      if all[i - 1].idx in dead {
        SweepDrops(all, dead, i, at0);
      } else {
        SweepKeeps(all, dead, i, at0);
      }
    }
  }

  lemma SweepStarts(all: seq<QNode>, at0: int, dead: set<nat>)
    requires UNSET <= at0 < |all|
    ensures SweptTo(all, at0, dead, |all|, all, at0)
  {
    SweepEnds(all, dead, at0);
  }

  lemma SweepDone(all: seq<QNode>, at0: int, dead: set<nat>, c: seq<QNode>, at: int)
    requires SweptTo(all, at0, dead, 0, c, at)
    ensures c == Kept(all, dead)
    ensures at == if at0 == UNSET then UNSET else HandOn(|Kept(all[..at0], dead)|, |c|)
  {
    SweepEnds(all, dead, at0);
  }

  lemma MovedRelinks(c: seq<QNode>, remap: map<nat, nat>)
    ensures Relinks(c, Indices(c), Moved(c, remap), remap)
  {
  }

  lemma RemovedOne(c: seq<QNode>, i: nat)
    requires i < |c|
    ensures EvictsOne(c, Removed(c, i), c[i].idx)
  {
    assert c == c[..i] + [c[i]] + c[i + 1..];
    IndicesConcat(c[..i], [c[i]]);
    IndicesConcat(c[..i] + [c[i]], c[i + 1..]);
    IndicesConcat(c[..i], c[i + 1..]);
    assert Indices([c[i]]) == [c[i].idx];
  }

  lemma SweptBy(c: seq<QNode>, dead: set<nat>, released: seq<nat>)
    requires Accounted(c, Kept(c, dead), released)
    ensures Sweeps(c, Kept(c, dead), released, dead)
  {
    KeptAndDropped(c, dead);
    Cancels(multiset(Indices(Kept(c, dead))), multiset(released), multiset(Indices(Dropped(c, dead))));
  }

  lemma Cancels(a: multiset<nat>, b: multiset<nat>, c: multiset<nat>)
    requires a + b == a + c
    ensures b == c
  {
    assert b == (a + b) - a && c == (a + c) - a;
  }

  lemma RebuiltSize(c: seq<QNode>, remap: map<nat, nat>, i: nat)
    requires i <= |c|
    ensures |Rebuilt(c, remap, i)| == |Moved(c[..i], remap)| + |c| - i
    ensures i < |c| ==> Rebuilt(c, remap, i)[|Moved(c[..i], remap)|] == c[i]
  {
  }

  /** Re-pointing a node keeps every link. */
  lemma ItemSet(nodes: seq<SieveNode>, free: int, head: int, tail: int, list: seq<int>, spare: seq<int>, m: nat,
                item: QNode)
    requires Shape(nodes, free, head, tail, list, spare) && m < |list|
    ensures 0 <= list[m] < |nodes|
    ensures var nodes' := nodes[list[m] := nodes[list[m]].(item := item)];
            && Shape(nodes', free, head, tail, list, spare)
            && Held(nodes', list) == Held(nodes, list)[m := item]
  {
    hide *;
    ShapeIs(nodes, free, head, tail, list, spare);
    PartsOnce(list, spare, |nodes|);
    LinksOf(nodes, list, m);
    var nodes' := nodes[list[m] := nodes[list[m]].(item := item)];
    SameLinks(nodes, nodes', list, spare);
    HeldSet(nodes, list, m, item);
    ShapeIs(nodes', free, head, tail, list, spare);
  }

  lemma SameLinks(nodes: seq<SieveNode>, nodes': seq<SieveNode>, list: seq<int>, spare: seq<int>)
    requires Chain(nodes, list) && Spares(nodes, spare) && |nodes'| == |nodes|
    requires forall x | 0 <= x < |nodes| :: nodes'[x].prev == nodes[x].prev && nodes'[x].next == nodes[x].next
    ensures Chain(nodes', list) && Spares(nodes', spare)
  {
  }

  lemma HeldSet(nodes: seq<SieveNode>, list: seq<int>, m: nat, item: QNode)
    requires Chain(nodes, list) && Once(list) && m < |list|
    ensures Held(nodes[list[m] := nodes[list[m]].(item := item)], list) == Held(nodes, list)[m := item]
  {
    hide At;
    var nodes' := nodes[list[m] := nodes[list[m]].(item := item)];
    forall i | 0 <= i < |list| ensures nodes'[list[i]].item == if i == m then item else nodes[list[i]].item {
      assert i < m ==> list[i] != list[m];
      assert m < i ==> list[m] != list[i];
    }
  }

  lemma NextStays(list: seq<int>, m: nat)
    requires m < |list|
    ensures At(Removed(list, m), m) == At(list, m + 1)
  {
  }

  class SievePolicy {
    /** The items of the table in use; a rebuild swaps them. */
    var items: Items
    var nodes: seq<SieveNode>
    var free: int
    var head: int
    var tail: int
    var hand: int
    var size: nat
    /** The slots of the list oldest first, the freelist from its head, and the hand's position in the list. */
    ghost var list: seq<int>
    ghost var spare: seq<int>
    ghost var at: int
    /** The queue nodes oldest first: what the policy is about. */
    ghost var contents: seq<QNode>

    constructor (items: Items)
      ensures this.items == items && Valid() && contents == [] && at == UNSET
    {
      this.items := items;
      nodes, free, head, tail, hand, size := [], NO_LINK, NO_LINK, NO_LINK, NO_LINK, 0;
      list, spare, at, contents := [], [], UNSET, [];
    }

    /** The slice holds exactly `contents`, and the hand is on a node of the list or unset. */
    ghost predicate Linked()
      reads this
    {
      && Shape(nodes, free, head, tail, list, spare)
      && (forall i | 0 <= i < |list| :: 0 <= list[i] < |nodes|) && contents == Held(nodes, list)
      && size == |list| && UNSET <= at < |list| && hand == At(list, at)
    }

    ghost predicate Valid()
      reads this
    {
      Linked() && InRange(contents, items.meta.Length) && Distinct(contents)
    }

    lemma LinkedParts()
      ensures Linked() <==>
                && Shape(nodes, free, head, tail, list, spare)
                && (forall i | 0 <= i < |list| :: 0 <= list[i] < |nodes|) && contents == Held(nodes, list)
                && size == |list| && UNSET <= at < |list| && hand == At(list, at)
    {
    }

    lemma ValidParts()
      ensures Valid() <==> Linked() && InRange(contents, items.meta.Length) && Distinct(contents)
    {
    }

    lemma NodeOf(i: nat)
      requires Linked() && i < |contents|
      ensures |list| == |contents| && 0 <= list[i] < |nodes| && nodes[list[i]].item == contents[i]
      ensures nodes[list[i]].prev == At(list, i + 1) && nodes[list[i]].next == At(list, i - 1)
      ensures list[i] != NO_LINK && (hand == list[i] <==> at == i)
    {
      assert Once(list);
    }

    lemma EndOf(i: nat)
      requires Linked() && i <= |contents|
      ensures At(list, i - 1) == NO_LINK <==> i == 0
    {
    }

    /** A slot for a new node: the freelist's head, or one more element of the slice. */
    method Alloc() returns (cur: int)
      requires Linked()
      modifies this`nodes, this`free, this`spare
      ensures Chain(nodes, list) && Spares(nodes, spare) && Parts(list + [cur], spare, |nodes|) && free == At(spare, 0)
      ensures (forall i | 0 <= i < |list| :: 0 <= list[i] < |nodes|) && Held(nodes, list) == contents
    {
      hide *;
      LinkedParts();
      ShapeIs(nodes, free, head, tail, list, spare);
      FreeIs(nodes, spare);
      if free != NO_LINK {
        cur := free;
        SpareTaken(nodes, list, spare);
        free := nodes[cur].next;
        spare := spare[1..];
      } else {
        SliceGrown(nodes, list, SieveNode(QNode(0, 0), 0, 0));
        nodes := nodes + [SieveNode(QNode(0, 0), 0, 0)];
        cur := |nodes| - 1;
      }
    }

    method Add(node: QNode)
      requires Valid() && node.idx < items.meta.Length && node.idx !in Indices(contents)
      modifies this
      ensures Valid() && items == old(items) && contents == old(contents) + [node] && at == old(at)
    {
      hide *;
      ValidParts();
      LinkedParts();
      ShapeIs(nodes, free, head, tail, list, spare);
      NewestStays(contents, node, items.meta.Length);
      var cur := Alloc();
      AddKeepsShape(nodes, head, tail, list, spare, cur, node);
      AttachedIs(nodes, cur, head, node);
      AtLonger(list, cur, at);
      nodes := nodes[cur := SieveNode(node, NO_LINK, head)];
      if head != NO_LINK {
        nodes := nodes[head := nodes[head].(prev := cur)];
      } else {
        tail := cur;
      }
      head := cur;
      size := size + 1;
      list := list + [cur];
      contents := contents + [node];
      HeldOf(nodes, free, head, tail, list, spare);
      LinkedParts();
      ValidParts();
    }

    /** Takes the node at position `i` out of the list; the caller has moved the hand off it. */
    method Unlink(cur: int, ghost i: nat)
      requires Linked() && i < |contents| && |list| == |contents| && cur == list[i] && at != i
      modifies this
      ensures Linked() && items == old(items)
      ensures contents == Removed(old(contents), i) && list == Removed(old(list), i)
      ensures at == Shifted(old(at), i)
    {
      hide *;
      LinkedParts();
      UnlinkKeepsShape(nodes, free, head, tail, list, spare, i);
      DetachedIs(nodes, cur, free);
      HandShifts(list, i, at);
      var node := nodes[cur];
      if node.prev != NO_LINK {
        nodes := nodes[node.prev := nodes[node.prev].(next := node.next)];
      } else {
        head := node.next;
      }
      if node.next != NO_LINK {
        nodes := nodes[node.next := nodes[node.next].(prev := node.prev)];
      } else {
        tail := node.prev;
      }
      nodes := nodes[cur := SieveNode(QNode(0, 0), node.prev, free)];
      free := cur;
      size := size - 1;
      list, spare, at := Removed(list, i), [cur] + spare, Shifted(at, i);
      contents := Removed(contents, i);
      HeldOf(nodes, free, head, tail, list, spare);
      LinkedParts();
    }

    /** Takes the node at position `i` out of the list; a hand on it moves to the next newer node first. */
    method Drop(cur: int, ghost i: nat)
      requires Linked() && i < |contents| && |list| == |contents| && cur == list[i]
      modifies this
      ensures Linked() && items == old(items)
      ensures contents == Removed(old(contents), i) && list == Removed(old(list), i)
      ensures at == Shifted(if old(at) == i then HandOn(i + 1, |old(contents)|) else old(at), i)
    {
      hide *;
      NodeOf(i);
      LinkedParts();
      if hand == cur {
        HandMoves(list, i);
        hand := nodes[cur].prev;
        at := HandOn(i + 1, |list|);
        LinkedParts();
      }
      Unlink(cur, i);
    }

    /** Evicts the first unvisited node from the hand toward the newer end, wrapping to the oldest; every visited node
        passed loses its counter, and the survivors keep their insertion order. */
    method Evict(nowOff: nat) returns (victim: nat, ok: bool, ghost v: nat, ghost passed: nat)
      requires Valid()
      modifies this, items.meta
      ensures Valid() && items == old(items)
      ensures ok <==> old(contents) != []
      ensures !ok ==> contents == old(contents) && items.meta[..] == old(items.meta[..])
      ensures ok ==>
                var c, meta0, s := old(contents), old(items.meta[..]), ScanFrom(old(at));
                && StopsAt(c, meta0, nowOff, s, passed, v) && victim == c[v].idx
                && Scanned(c, meta0, items.meta[..], nowOff, s, passed)
                && contents == Removed(c, v) && at == HandOn(v, |contents|) && EvictsOne(c, contents, victim)
    {
      hide *;
      ValidParts();
      LinkedParts();
      ghost var c, meta0, s := contents, items.meta[..], ScanFrom(at);
      v, passed := 0, 0;
      if size == 0 {
        return 0, false, v, passed;
      }
      ScanInRange(at, |c|);
      ScanStarts(c, meta0, nowOff, s);
      while size > 0
        invariant Linked() && items == old(items) && contents == c && size == |c| && passed <= |c|
        invariant s < |c| && UNSET <= at && ScanFrom(at) == Step(s, passed, |c|)
        invariant Scanned(c, meta0, items.meta[..], nowOff, s, passed)
        decreases |c| - passed
      {
        LinkedParts();
        v := Step(s, passed, |c|);
        ghost var meta := items.meta[..];
        ScanMoves(c, meta0, meta, nowOff, s, passed);
        NodeOf(v);
        ShapeIs(nodes, free, head, tail, list, spare);
        TailOrHand(list, at, tail, hand);
        var cur := hand;
        if cur == NO_LINK {
          cur := tail;
        }
        assert cur == list[v];
        var node := nodes[cur];
        var m := items.meta[node.item.idx];
        UnvisitedIs(m, nowOff);
        HandMoves(list, v);
        if !m.Spent(nowOff) && m.chances != 0 {
          HandSteps(s, passed, |c|);
          items.meta[node.item.idx] := m.(chances := 0);
          assert items.meta[..] == meta[node.item.idx := m.(chances := 0)];
          hand := node.prev;
          at := HandOn(v + 1, |c|);
          passed := passed + 1;
          LinkedParts();
        } else {
          hand := node.prev;
          at := HandOn(v + 1, |c|);
          LinkedParts();
          Unlink(cur, v);
          RemovedStays(c, v, items.meta.Length);
          ValidParts();
          return node.item.idx, true, v, passed;
        }
      }
      assert false;
    }

    /** Drops the nodes of dead items; the others keep their order, and the hand stays on its node or moves to the next
        newer survivor. */
    method Sweep() returns (released: seq<nat>)
      requires Valid()
      modifies this
      ensures Valid() && items == old(items) && contents == Kept(old(contents), DeadSlots(items.meta[..]))
      ensures Sweeps(old(contents), contents, released, DeadSlots(items.meta[..]))
      ensures at == if old(at) == UNSET then UNSET
                    else HandOn(|Kept(old(contents)[..old(at)], DeadSlots(items.meta[..]))|, |contents|)
    {
      hide *;
      ValidParts();
      LinkedParts();
      ghost var c, at0, dead := contents, at, DeadSlots(items.meta[..]);
      KeptIsSub(c, dead, items.meta.Length);
      SweepStarts(c, at0, dead);
      ShapeIs(nodes, free, head, tail, list, spare);
      var cur := head;
      ghost var i := |c|;
      NoneReleased(c);
      released := [];
      while cur != NO_LINK
        invariant 0 <= i <= |c| && Linked() && items == old(items) && cur == At(list, i - 1)
        invariant SweptTo(c, at0, dead, i, contents, at) && Accounted(c, contents, released)
        decreases i
      {
        LinkedParts();
        AtInside(list, i - 1);
        SweepReaches(c, at0, dead, i, contents, at);
        i := i - 1;
        NodeOf(i);
        InRangeAt(c, items.meta.Length, i);
        DeadIff(items.meta[..], c[i].idx);
        var node := nodes[cur];
        var next := node.next;
        if items.meta[node.item.idx].dead {
          OneReleased(c, contents, i, released);
          released := released + [node.item.idx];
          PrefixStays(list, i);
          Drop(cur, i);
        }
        cur := next;
      }
      SweepReaches(c, at0, dead, i, contents, at);
      EndOf(i);
      SweepDone(c, at0, dead, contents, at);
      SweptBy(c, dead, released);
      ValidParts();
    }

    /** Follows the items to a new table, oldest first: dropped nodes leave, the others keep their order, and the hand
        stays on its node or moves to the next newer survivor. */
    method Rebuild(remap: map<nat, nat>, next: Items)
      requires Valid() && Injects(contents, remap, next.meta.Length)
      modifies this
      ensures Valid() && items == next && contents == Moved(old(contents), remap)
      ensures Relinks(old(contents), Indices(old(contents)), contents, remap)
      ensures at == if old(at) == UNSET then UNSET
                    else HandOn(|Moved(old(contents)[..old(at)], remap)|, |contents|)
    {
      hide *;
      ghost var c := contents;
      ValidParts();
      MovedIsSub(c, remap, next.meta.Length);
      MovedRelinks(c, remap);
      Relink(remap);
      LinkedParts();
      items := next;
      LinkedParts();
      ValidParts();
    }

    method Relink(remap: map<nat, nat>)
      requires Linked()
      modifies this
      ensures Linked() && items == old(items) && contents == Moved(old(contents), remap)
      ensures at == if old(at) == UNSET then UNSET
                    else HandOn(|Moved(old(contents)[..old(at)], remap)|, |contents|)
    {
      hide *;
      LinkedParts();
      ghost var c, at0 := contents, at;
      RebuildEnds(c, remap, at0);
      ShapeIs(nodes, free, head, tail, list, spare);
      var cur := tail;
      ghost var i, m := 0, 0;
      while cur != NO_LINK
        invariant 0 <= i <= |c| && Linked() && m == |Moved(c[..i], remap)| && cur == At(list, m)
        invariant items == old(items)
        invariant contents == Rebuilt(c, remap, i) && at == HandRebuilt(at0, c, remap, i)
        decreases |c| - i
      {
        LinkedParts();
        RebuiltSize(c, remap, i);
        AtInside(list, m);
        NodeOf(m);
        var node := nodes[cur];
        var prev := node.prev;
        if node.item.idx in remap {
          RebuildMoves(c, remap, i, at0);
          ItemSet(nodes, free, head, tail, list, spare, m, QNode(remap[node.item.idx], node.item.cost));
          nodes := nodes[cur := node.(item := QNode(remap[node.item.idx], node.item.cost))];
          contents := contents[m := QNode(remap[node.item.idx], node.item.cost)];
          LinkedParts();
          m := m + 1;
        } else {
          RebuildDrops(c, remap, i, at0);
          NextStays(list, m);
          Drop(cur, m);
        }
        cur := prev;
        i := i + 1;
      }
      RebuiltSize(c, remap, i);
      PastNewest(m);
    }

    lemma PastNewest(m: nat)
      requires Linked() && m <= |contents|
      ensures At(list, m) == NO_LINK <==> m == |contents|
    {
    }
  }
}
