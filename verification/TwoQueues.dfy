/**
 What S3-FIFO and W-TinyLFU have in common: a first queue for newcomers with a weight budget, and a main queue run as
 GCLOCK. The policies differ in what becomes of an untouched newcomer.
 */
module TwoQueuePolicies {
  import opened PolicyContract
  import opened EvictQueues
  import opened QueuePasses

  /** The chances left among the nodes of a queue: what GCLOCK has to spend before it must evict. */
  ghost function ChanceSum(nodes: seq<QNode>, meta: seq<Meta>): nat
    requires InRange(nodes, |meta|)
  {
    if nodes == [] then 0 else ChanceSum(nodes[..|nodes| - 1], meta) + meta[nodes[|nodes| - 1].idx].chances
  }

  lemma {:induction false} ChanceSumConcat(a: seq<QNode>, b: seq<QNode>, meta: seq<Meta>)
    requires InRange(a, |meta|) && InRange(b, |meta|)
    ensures InRange(a + b, |meta|) && ChanceSum(a + b, meta) == ChanceSum(a, meta) + ChanceSum(b, meta)
  {
    if b == [] {
      assert a + b == a;
    } else {
      ChanceSumConcat(a, b[..|b| - 1], meta);
      assert (a + b)[..|a + b| - 1] == a + b[..|b| - 1];
    }
  }

  lemma {:induction false} ChanceSumElsewhere(nodes: seq<QNode>, meta: seq<Meta>, x: nat, m: Meta)
    requires InRange(nodes, |meta|) && x < |meta| && forall i | 0 <= i < |nodes| :: nodes[i].idx != x
    ensures ChanceSum(nodes, meta[x := m]) == ChanceSum(nodes, meta)
  {
    if nodes != [] {
      ChanceSumElsewhere(nodes[..|nodes| - 1], meta, x, m);
    }
  }

  /** One GCLOCK step that sends a node to the back spends exactly one chance. */
  lemma StepSpendsOne(nodes: seq<QNode>, meta: seq<Meta>)
    requires nodes != [] && InRange(nodes, |meta|) && Distinct(nodes) && meta[nodes[0].idx].chances > 0
    ensures var m := meta[nodes[0].idx];
            var meta' := meta[nodes[0].idx := m.(chances := m.chances - 1)];
            && InRange(nodes[1..] + [nodes[0]], |meta'|)
            && ChanceSum(nodes[1..] + [nodes[0]], meta') == ChanceSum(nodes, meta) - 1
  {
    var node, rest := nodes[0], nodes[1..];
    var m := meta[node.idx];
    var meta' := meta[node.idx := m.(chances := m.chances - 1)];
    ChanceSumConcat([node], rest, meta);
    assert nodes == [node] + rest && [node][..0] == [];
    ChanceSumElsewhere(rest, meta, node.idx, meta'[node.idx]);
    ChanceSumConcat(rest, [node], meta');
  }

  /** Items only ever lose chances; nothing else about them changes. */
  ghost predicate OnlyAged(before: seq<Meta>, after: seq<Meta>) {
    && |after| == |before|
    && forall i | 0 <= i < |before| ::
         after[i].chances <= before[i].chances && after[i] == before[i].(chances := after[i].chances)
  }

  /** The item's counter after one chance is revoked. */
  ghost function Revoked(meta: seq<Meta>, x: nat): seq<Meta> {
    if x < |meta| && meta[x].chances > 0 then meta[x := meta[x].(chances := meta[x].chances - 1)] else meta
  }

  /** The item's counter after a promotion. */
  ghost function Cleared(meta: seq<Meta>, x: nat): seq<Meta> {
    if x < |meta| then meta[x := meta[x].(chances := 0)] else meta
  }

  lemma RevokedIs(meta: seq<Meta>, x: nat)
    requires x < |meta| && meta[x].chances > 0
    ensures Revoked(meta, x) == meta[x := meta[x].(chances := meta[x].chances - 1)]
  {
  }

  lemma ClearedIs(meta: seq<Meta>, x: nat)
    requires x < |meta|
    ensures Cleared(meta, x) == meta[x := meta[x].(chances := 0)]
  {
  }

  /** The item at `x` may be evicted as it stands. */
  ghost predicate Takes(meta: seq<Meta>, x: nat, nowOff: nat) {
    x < |meta| && Takeable(meta[x], nowOff)
  }

  lemma TakesIs(meta: seq<Meta>, x: nat, nowOff: nat)
    requires x < |meta|
    ensures Takes(meta, x, nowOff) <==> meta[x].Spent(nowOff) || meta[x].chances == 0
  {
  }

  /** The slots the nodes of both queues reference. */
  ghost function Bag(f: seq<QNode>, m: seq<QNode>): multiset<nat> {
    multiset(Indices(f)) + multiset(Indices(m))
  }

  /** Every node references a slot of the table, and no slot is queued twice. */
  ghost predicate Sound(f: seq<QNode>, m: seq<QNode>, n: nat) {
    forall x: nat | x in Bag(f, m) :: x < n && Bag(f, m)[x] == 1
  }

  lemma IndicesHead(nodes: seq<QNode>)
    requires nodes != []
    ensures multiset(Indices(nodes)) == multiset(Indices(nodes[1..])) + multiset{nodes[0].idx}
  {
    assert Indices(nodes) == [nodes[0].idx] + Indices(nodes[1..]);
  }

  lemma IndicesLast(nodes: seq<QNode>, node: QNode)
    ensures multiset(Indices(nodes + [node])) == multiset(Indices(nodes)) + multiset{node.idx}
  {
    IndicesConcat(nodes, [node]);
    assert Indices([node]) == [node.idx];
  }

  lemma NoRepeat(nodes: seq<QNode>, n: nat)
    requires forall x: nat | x in multiset(Indices(nodes)) :: x < n && multiset(Indices(nodes))[x] == 1
    ensures InRange(nodes, n) && Distinct(nodes)
  {
    var s := Indices(nodes);
    forall i | 0 <= i < |nodes| ensures nodes[i].idx < n {
      assert s[i] in multiset(s);
    }
    forall i, j | 0 <= i < j < |nodes| ensures nodes[i].idx != nodes[j].idx {
      assert s == s[..j] + [s[j]] + s[j + 1..];
      assert s[..j][i] == s[i];
      assert s[i] in multiset(s[..j]);
      assert multiset(s)[s[j]] == multiset(s[..j])[s[j]] + 1 + multiset(s[j + 1..])[s[j]];
      assert s[j] in multiset(s);
    }
  }

  lemma SoundMain(f: seq<QNode>, m: seq<QNode>, n: nat)
    requires Sound(f, m, n)
    ensures InRange(m, n) && Distinct(m)
  {
    forall x: nat | x in multiset(Indices(m)) ensures x < n && multiset(Indices(m))[x] == 1 {
      assert x in Bag(f, m);
    }
    NoRepeat(m, n);
  }

  /** A newcomer leaves the first queue. */
  lemma TakenFromFirst(f: seq<QNode>, m: seq<QNode>, n: nat)
    requires Sound(f, m, n) && f != []
    ensures Sound(f[1..], m, n) && f[0].idx < n && f[0].idx !in Bag(f[1..], m)
    ensures Bag(f, m) == Bag(f[1..], m) + multiset{f[0].idx}
    ensures CostSum(f[1..]) == CostSum(f) - f[0].cost
  {
    IndicesHead(f);
    CostSumHead(f);
    OneOut(Bag(f, m), Bag(f[1..], m), f[0].idx, n);
  }

  lemma OneOut(all: multiset<nat>, rest: multiset<nat>, x: nat, n: nat)
    requires all == rest + multiset{x} && forall y: nat | y in all :: y < n && all[y] == 1
    ensures x < n && x !in rest && forall y: nat | y in rest :: y < n && rest[y] == 1
  {
    assert x in all;
    forall y: nat | y in rest ensures y < n && rest[y] == 1 {
      assert y in all;
    }
  }

  lemma OneIn(all: multiset<nat>, rest: multiset<nat>, x: nat, n: nat)
    requires all == rest + multiset{x} && x < n && x !in rest && forall y: nat | y in rest :: y < n && rest[y] == 1
    ensures forall y: nat | y in all :: y < n && all[y] == 1
  {
  }

  /** A node joins the main queue. */
  lemma JoinedMain(f: seq<QNode>, m: seq<QNode>, n: nat, node: QNode)
    requires Sound(f, m, n) && node.idx < n && node.idx !in Bag(f, m)
    ensures Sound(f, m + [node], n) && Bag(f, m + [node]) == Bag(f, m) + multiset{node.idx}
  {
    IndicesLast(m, node);
    OneIn(Bag(f, m + [node]), Bag(f, m), node.idx, n);
  }

  /** A newcomer joins the first queue. */
  lemma JoinedFirst(f: seq<QNode>, m: seq<QNode>, n: nat, node: QNode)
    requires Sound(f, m, n) && node.idx < n && node.idx !in Bag(f, m)
    ensures Sound(f + [node], m, n) && Bag(f + [node], m) == Bag(f, m) + multiset{node.idx}
    ensures CostSum(f + [node]) == CostSum(f) + node.cost
  {
    IndicesLast(f, node);
    OneIn(Bag(f + [node], m), Bag(f, m), node.idx, n);
    CostSumConcat(f, [node]);
    CostSumOne(node);
  }

  /** The head of the main queue goes. */
  lemma TakenFromMain(f: seq<QNode>, m: seq<QNode>, n: nat)
    requires Sound(f, m, n) && m != []
    ensures Sound(f, m[1..], n) && m[0].idx < n && m[0].idx !in Bag(f, m[1..])
    ensures Bag(f, m) == Bag(f, m[1..]) + multiset{m[0].idx}
  {
    IndicesHead(m);
    OneOut(Bag(f, m), Bag(f, m[1..]), m[0].idx, n);
  }

  /** What Evict may return: a dead or expired item, or one with no chance left. */
  predicate Takeable(m: Meta, nowOff: nat) {
    m.Spent(nowOff) || m.chances == 0
  }

  lemma TakeableIs(m: Meta, nowOff: nat)
    ensures Takeable(m, nowOff) <==> m.Spent(nowOff) || m.chances == 0
  {
  }

  /** ChanceSum, for any queue. */
  ghost function Chances(nodes: seq<QNode>, meta: seq<Meta>): nat {
    if InRange(nodes, |meta|) then ChanceSum(nodes, meta) else 0
  }

  lemma ChancesIs(nodes: seq<QNode>, meta: seq<Meta>)
    requires InRange(nodes, |meta|)
    ensures Chances(nodes, meta) == ChanceSum(nodes, meta)
  {
  }

  lemma NotAged(meta: seq<Meta>)
    ensures OnlyAged(meta, meta)
  {
  }

  lemma AgedOne(meta: seq<Meta>, x: nat)
    requires x < |meta| && meta[x].chances > 0
    ensures OnlyAged(meta, meta[x := meta[x].(chances := meta[x].chances - 1)])
    ensures OnlyAged(meta, meta[x := meta[x].(chances := 0)])
  {
  }

  lemma AgedFurther(a: seq<Meta>, b: seq<Meta>, c: seq<Meta>)
    requires OnlyAged(a, b) && OnlyAged(b, c)
    ensures OnlyAged(a, c)
  {
  }

  /** The first queue gives up nodes from its head only. */
  ghost predicate Leaves(before: seq<QNode>, after: seq<QNode>) {
    |after| <= |before| && after == before[|before| - |after|..]
  }

  lemma NoneLeft(f: seq<QNode>)
    ensures Leaves(f, f)
  {
  }

  lemma SoundFirst(f: seq<QNode>, m: seq<QNode>, n: nat)
    requires Sound(f, m, n)
    ensures InRange(f, n) && Distinct(f)
  {
    forall x: nat | x in multiset(Indices(f)) ensures x < n && multiset(Indices(f))[x] == 1 {
      assert x in Bag(f, m);
    }
    NoRepeat(f, n);
  }

  lemma CostSumPrefix(nodes: seq<QNode>, i: nat)
    ensures CostSum(nodes[..0]) == 0
    ensures i < |nodes| ==> CostSum(nodes[..i + 1]) == CostSum(nodes[..i]) + nodes[i].cost
  {
    if i < |nodes| {
      assert nodes[..i + 1][..i] == nodes[..i];
    }
  }

  /** Both queues swept are one sweep of the policy. */
  lemma SweepBoth(f: seq<QNode>, m: seq<QNode>, dead: set<nat>, n: nat)
    requires Sound(f, m, n)
    ensures Sound(Kept(f, dead), Kept(m, dead), n)
    ensures Sweeps(f + m, Kept(f, dead) + Kept(m, dead), Indices(Dropped(f, dead) + Dropped(m, dead)), dead)
  {
    KeptAndDropped(f, dead);
    KeptAndDropped(m, dead);
    KeptConcat(f, m, dead);
    forall x: nat | x in Bag(Kept(f, dead), Kept(m, dead)) ensures x < n && Bag(Kept(f, dead), Kept(m, dead))[x] == 1 {
      assert x in Bag(f, m);
    }
  }

  lemma {:induction false} OnceEach(s: seq<nat>)
    requires forall i, j | 0 <= i < j < |s| :: s[i] != s[j]
    ensures forall x | x in multiset(s) :: multiset(s)[x] == 1
  {
    if s != [] {
      var rest, last := s[..|s| - 1], s[|s| - 1];
      OnceEach(rest);
      assert s == rest + [last];
      assert last !in rest;
      assert last !in multiset(rest);
    }
  }

  /** Nodes that are apart and in range are soundly queued, however they are split. */
  lemma DistinctIsSound(f: seq<QNode>, m: seq<QNode>, n: nat)
    requires InRange(f + m, n) && Distinct(f + m)
    ensures Sound(f, m, n)
  {
    var all := Indices(f + m);
    IndicesConcat(f, m);
    OnceEach(all);
    forall x: nat | x in Bag(f, m) ensures x < n && Bag(f, m)[x] == 1 {
      assert x in multiset(all);
      var i :| 0 <= i < |all| && all[i] == x;
      assert (f + m)[i].idx == x;
    }
  }

  /** Both queues rebuilt are one rebuild of the policy. */
  lemma MovedBoth(f: seq<QNode>, m: seq<QNode>, remap: map<nat, nat>, n: nat)
    requires Injects(f + m, remap, n)
    ensures Sound(Moved(f, remap), Moved(m, remap), n)
    ensures Relinks(f + m, Indices(f + m), Moved(f, remap) + Moved(m, remap), remap)
  {
    MovedConcat(f, m, remap);
    MovedIsSub(f + m, remap, n);
    DistinctIsSound(Moved(f, remap), Moved(m, remap), n);
  }

  /** What a two-queue policy works on: its queues and the items' counters. */
  datatype Queues = Queues(first: seq<QNode>, main: seq<QNode>, meta: seq<Meta>)

  class TwoQueues {
    /** The items of the table in use; a rebuild swaps them. */
    var items: Items
    const first: EvictQueue
    const main: EvictQueue
    const firstCap: int
    var firstWeight: int

    constructor (items: Items, firstCap: int)
      ensures this.items == items && this.firstCap == firstCap
      ensures fresh(first) && fresh(main) && fresh(first.repr) && fresh(main.repr)
      ensures Valid() && first.contents == [] && main.contents == []
    {
      this.items, this.firstCap, firstWeight := items, firstCap, 0;
      first := new EvictQueue();
      main := new EvictQueue();
    }

    ghost predicate Apart()
      reads this, first, main
    {
      && first != main && first.repr !! main.repr && this !in first.repr && this !in main.repr
      && items.meta !in first.repr && items.meta !in main.repr
    }

    /** The first queue's weight is the sum of its nodes' costs, tombstones included; no slot is queued twice. */
    ghost predicate Valid()
      reads this, first, main, first.repr, main.repr
    {
      && first.Valid() && main.Valid() && Apart()
      && firstWeight == CostSum(first.contents)
      && Sound(first.contents, main.contents, items.meta.Length)
    }

    /** The slots the policy's nodes reference. */
    ghost function Queued(): multiset<nat>
      reads this, first, main
    {
      Bag(first.contents, main.contents)
    }

    ghost function Now(): Queues
      reads this, first, main, items.meta
    {
      Queues(first.contents, main.contents, items.meta[..])
    }

    lemma NowIs()
      ensures Now() == Queues(first.contents, main.contents, items.meta[..])
    {
    }

    lemma ValidParts()
      ensures Valid() <==>
                && first.Valid() && main.Valid() && Apart()
                && firstWeight == CostSum(first.contents)
                && Sound(first.contents, main.contents, items.meta.Length)
    {
    }

    lemma ApartParts()
      ensures Apart() <==>
                && first != main && first.repr !! main.repr && this !in first.repr && this !in main.repr
                && items.meta !in first.repr && items.meta !in main.repr
    {
    }

    lemma QueuedIs()
      ensures Queued() == Bag(first.contents, main.contents)
    {
    }

    /** Pops the head of the first queue and gives its weight back. */
    method TakeFirst() returns (node: QNode)
      requires Valid() && first.contents != []
      modifies first.repr, this`firstWeight
      ensures Valid() && fresh(first.repr - old(first.repr))
      ensures node == old(first.contents)[0] && first.contents == old(first.contents)[1..]
      ensures node.idx < items.meta.Length && node.idx !in Queued() && old(Queued()) == Queued() + multiset{node.idx}
    {
      hide *;
      ValidParts();
      ApartParts();
      QueuedIs();
      TakenFromFirst(first.contents, main.contents, items.meta.Length);
      var ok;
      node, ok := first.Pop();
      firstWeight := firstWeight - node.cost;
      ValidParts();
      ApartParts();
      QueuedIs();
    }

    /** Moves a node to the back of the main queue. */
    method PushMain(node: QNode)
      requires Valid() && node.idx < items.meta.Length && node.idx !in Queued()
      modifies main.repr
      ensures Valid() && fresh(main.repr - old(main.repr))
      ensures main.contents == old(main.contents) + [node] && Queued() == old(Queued()) + multiset{node.idx}
    {
      hide *;
      ValidParts();
      ApartParts();
      QueuedIs();
      JoinedMain(first.contents, main.contents, items.meta.Length, node);
      main.Push(node);
      ValidParts();
      ApartParts();
      QueuedIs();
    }

    /** A newcomer, charged to the first queue. */
    method PushFirst(node: QNode)
      requires Valid() && node.idx < items.meta.Length && node.idx !in Queued()
      modifies first.repr, this`firstWeight
      ensures Valid() && fresh(first.repr - old(first.repr))
      ensures first.contents == old(first.contents) + [node] && Queued() == old(Queued()) + multiset{node.idx}
    {
      hide *;
      ValidParts();
      ApartParts();
      QueuedIs();
      JoinedFirst(first.contents, main.contents, items.meta.Length, node);
      first.Push(node);
      firstWeight := firstWeight + node.cost;
      ValidParts();
      ApartParts();
      QueuedIs();
    }

    method TakeMain() returns (node: QNode)
      requires Valid() && main.contents != []
      modifies main.repr
      ensures Valid() && fresh(main.repr - old(main.repr))
      ensures node == old(main.contents)[0] && main.contents == old(main.contents)[1..]
      ensures node.idx < items.meta.Length && node.idx !in Queued() && old(Queued()) == Queued() + multiset{node.idx}
    {
      hide *;
      ValidParts();
      ApartParts();
      QueuedIs();
      TakenFromMain(first.contents, main.contents, items.meta.Length);
      var ok;
      node, ok := main.Pop();
      ValidParts();
      ApartParts();
      QueuedIs();
    }

    /** One GCLOCK step over the main queue: the head is taken, or loses a chance and goes to the back. */
    method MainOnce(nowOff: nat) returns (victim: nat, found: bool)
      requires Valid() && main.contents != []
      modifies main.repr, items.meta
      ensures Valid() && fresh(main.repr - old(main.repr))
      ensures OnlyAged(old(items.meta[..]), items.meta[..])
      ensures found <==> Takes(old(items.meta[..]), old(main.contents)[0].idx, nowOff)
      ensures found ==>
                && victim == old(main.contents)[0].idx < items.meta.Length && Takeable(items.meta[victim], nowOff)
                && items.meta[..] == old(items.meta[..])
                && main.contents == old(main.contents)[1..] && old(Queued()) == Queued() + multiset{victim}
      ensures !found ==>
                && main.contents == old(main.contents)[1..] + [old(main.contents)[0]] && Queued() == old(Queued())
                && items.meta[..] == Revoked(old(items.meta[..]), old(main.contents)[0].idx)
                && Chances(main.contents, items.meta[..]) < old(Chances(main.contents, items.meta[..]))
    {
      hide *;
      ghost var nodes, meta := main.contents, items.meta[..];
      ValidParts();
      ApartParts();
      SoundMain(first.contents, nodes, items.meta.Length);
      NotAged(meta);
      var node := TakeMain();
      var m := items.meta[node.idx];
      TakeableIs(m, nowOff);
      TakesIs(meta, node.idx, nowOff);
      if m.Spent(nowOff) || m.chances == 0 {
        return node.idx, true;
      }
      RevokedIs(meta, node.idx);
      AgedOne(meta, node.idx);
      StepSpendsOne(nodes, meta);
      ChancesIs(nodes, meta);
      ApartParts();
      items.meta[node.idx] := m.(chances := m.chances - 1);
      ghost var meta' := items.meta[..];
      assert meta' == meta[node.idx := m.(chances := m.chances - 1)];
      MetaWritten(meta');
      PushMain(node);
      assert items.meta[..] == meta';
      ChancesIs(main.contents, meta');
      return 0, false;
    }

    /** Writing an item's counter leaves the queues as they are. */
    lemma MetaWritten(meta: seq<Meta>)
      requires items.meta[..] == meta
      ensures Valid() <==>
                && first.Valid() && main.Valid() && Apart()
                && firstWeight == CostSum(first.contents)
                && Sound(first.contents, main.contents, items.meta.Length)
    {
    }

    /** Drops the nodes of dead items from both queues; what leaves the first one gives its weight back. */
    method Sweep() returns (released: seq<nat>)
      requires Valid()
      modifies first.repr, main.repr, this`firstWeight
      ensures Valid() && fresh(first.repr - old(first.repr)) && fresh(main.repr - old(main.repr))
      ensures first.contents == Kept(old(first.contents), DeadSlots(items.meta[..]))
      ensures main.contents == Kept(old(main.contents), DeadSlots(items.meta[..]))
      ensures Sweeps(old(first.contents + main.contents), first.contents + main.contents, released,
                     DeadSlots(items.meta[..]))
    {
      hide *;
      ValidParts();
      ApartParts();
      ghost var f, m, dead := first.contents, main.contents, DeadSlots(items.meta[..]);
      SoundMain(f, m, items.meta.Length);
      SoundFirst(f, m, items.meta.Length);
      SweepCosts(f, dead);
      SweepBoth(f, m, dead, items.meta.Length);
      var fromFirst := SweepQueue(first, items);
      var i := 0;
      ghost var w := firstWeight;
      CostSumPrefix(fromFirst, 0);
      while i < |fromFirst|
        invariant 0 <= i <= |fromFirst| && firstWeight == w - CostSum(fromFirst[..i])
        modifies this`firstWeight
      {
        CostSumPrefix(fromFirst, i);
        firstWeight := firstWeight - fromFirst[i].cost;
        i := i + 1;
      }
      assert fromFirst[..i] == fromFirst;
      var fromMain := SweepQueue(main, items);
      released := Indices(fromFirst + fromMain);
      ApartParts();
      ValidParts();
    }

    /** Follows the items to a new table: dropped nodes leave, the others keep their queue and order, and what leaves
        the first queue gives its weight back. */
    method Rebuild(remap: map<nat, nat>, next: Items)
      requires Valid() && Injects(first.contents + main.contents, remap, next.meta.Length)
      requires next.meta !in first.repr && next.meta !in main.repr
      modifies first.repr, main.repr, this`firstWeight, this`items
      ensures Valid() && items == next
      ensures fresh(first.repr - old(first.repr)) && fresh(main.repr - old(main.repr))
      ensures first.contents == Moved(old(first.contents), remap) && main.contents == Moved(old(main.contents), remap)
      ensures var before := old(first.contents + main.contents);
              Relinks(before, Indices(before), first.contents + main.contents, remap)
    {
      hide *;
      ValidParts();
      ApartParts();
      ghost var f, m := first.contents, main.contents;
      MovedBoth(f, m, remap, next.meta.Length);
      RebuildCosts(f, remap);
      var fromFirst := RebuildQueue(first, remap);
      var i := 0;
      ghost var w := firstWeight;
      CostSumPrefix(fromFirst, 0);
      while i < |fromFirst|
        invariant 0 <= i <= |fromFirst| && firstWeight == w - CostSum(fromFirst[..i])
        modifies this`firstWeight
      {
        CostSumPrefix(fromFirst, i);
        firstWeight := firstWeight - fromFirst[i].cost;
        i := i + 1;
      }
      assert fromFirst[..i] == fromFirst;
      var fromMain := RebuildQueue(main, remap);
      items := next;
      ApartParts();
      ValidParts();
    }
  }
}
