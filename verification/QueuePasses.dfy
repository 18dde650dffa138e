/** The items a policy looks at, and the two passes every queue-based policy makes over its queue. */
module QueuePasses {
  import opened PolicyContract
  import opened EvictQueues
  import ExpiryScale

  /** What a policy sees of an item: the dead bit, the reference counter (0 to 2), the deadline, and its key's hash. */
  datatype Meta = Meta(dead: bool, chances: nat, expireOff: nat, keyHash: bv64) {
    /** The policy may take it without looking at its counter. */
    predicate Spent(nowOff: nat) { dead || ExpiryScale.Expired(expireOff, nowOff) }
  }

  class Items {
    const meta: array<Meta>

    constructor (n: nat)
      ensures fresh(meta) && meta.Length == n && forall i | 0 <= i < n :: meta[i] == Meta(false, 0, 0, 0)
    {
      meta := new Meta[n](_ => Meta(false, 0, 0, 0));
    }
  }

  ghost predicate InRange(nodes: seq<QNode>, n: nat) {
    forall i | 0 <= i < |nodes| :: nodes[i].idx < n
  }

  ghost predicate Distinct(nodes: seq<QNode>) {
    forall i, j | 0 <= i < j < |nodes| :: nodes[i].idx != nodes[j].idx
  }

  ghost function DeadSlots(meta: seq<Meta>): set<nat> { set i: nat | i < |meta| && meta[i].dead }

  /** The nodes a rebuild drops, in order. */
  ghost function Lost(nodes: seq<QNode>, remap: map<nat, nat>): seq<QNode> {
    if nodes == [] then []
    else
      var rest, last := Lost(nodes[..|nodes| - 1], remap), nodes[|nodes| - 1];
      if last.idx in remap then rest else rest + [last]
  }

  ghost function CostSum(nodes: seq<QNode>): int {
    if nodes == [] then 0 else CostSum(nodes[..|nodes| - 1]) + nodes[|nodes| - 1].cost
  }

  lemma {:induction false} CostSumConcat(a: seq<QNode>, b: seq<QNode>)
    ensures CostSum(a + b) == CostSum(a) + CostSum(b)
  {
    if b == [] {
      assert a + b == a;
    } else {
      CostSumConcat(a, b[..|b| - 1]);
      assert (a + b)[..|a + b| - 1] == a + b[..|b| - 1];
    }
  }

  lemma CostSumOne(node: QNode)
    ensures CostSum([node]) == node.cost
  {
    assert [node][..0] == [];
  }

  lemma CostSumHead(nodes: seq<QNode>)
    requires nodes != []
    ensures CostSum(nodes) == nodes[0].cost + CostSum(nodes[1..])
  {
    CostSumConcat([nodes[0]], nodes[1..]);
    CostSumOne(nodes[0]);
    assert nodes == [nodes[0]] + nodes[1..];
  }

  /** A sweep keeps nodes apart and in range. */
  lemma {:induction false} KeptIsSub(nodes: seq<QNode>, dead: set<nat>, n: nat)
    requires InRange(nodes, n) && Distinct(nodes)
    ensures InRange(Kept(nodes, dead), n) && Distinct(Kept(nodes, dead))
    ensures forall i | 0 <= i < |Kept(nodes, dead)| :: Kept(nodes, dead)[i] in nodes
  {
    if nodes != [] {
      var rest, last := nodes[..|nodes| - 1], nodes[|nodes| - 1];
      KeptIsSub(rest, dead, n);
      var kept := Kept(rest, dead);
      forall i | 0 <= i < |kept| ensures kept[i].idx != last.idx && kept[i] in nodes {
        var j :| 0 <= j < |rest| && rest[j] == kept[i];
        assert nodes[j] == kept[i];
      }
    }
  }

  lemma {:induction false} SweepCosts(nodes: seq<QNode>, dead: set<nat>)
    ensures CostSum(nodes) == CostSum(Kept(nodes, dead)) + CostSum(Dropped(nodes, dead))
  {
    if nodes != [] {
      var rest, last := nodes[..|nodes| - 1], nodes[|nodes| - 1];
      SweepCosts(rest, dead);
      CostSumConcat(Kept(rest, dead), [last]);
      CostSumConcat(Dropped(rest, dead), [last]);
      CostSumOne(last);
    }
  }

  lemma {:induction false} RebuildCosts(nodes: seq<QNode>, remap: map<nat, nat>)
    ensures CostSum(nodes) == CostSum(Moved(nodes, remap)) + CostSum(Lost(nodes, remap))
  {
    if nodes != [] {
      var rest, last := nodes[..|nodes| - 1], nodes[|nodes| - 1];
      RebuildCosts(rest, remap);
      if last.idx in remap {
        var moved := QNode(remap[last.idx], last.cost);
        CostSumConcat(Moved(rest, remap), [moved]);
        CostSumOne(moved);
      } else {
        CostSumConcat(Lost(rest, remap), [last]);
        CostSumOne(last);
      }
    }
  }

  lemma {:induction false} KeptConcat(a: seq<QNode>, b: seq<QNode>, dead: set<nat>)
    ensures Kept(a + b, dead) == Kept(a, dead) + Kept(b, dead)
    ensures Dropped(a + b, dead) == Dropped(a, dead) + Dropped(b, dead)
  {
    if b == [] {
      assert a + b == a;
    } else {
      KeptConcat(a, b[..|b| - 1], dead);
      assert (a + b)[..|a + b| - 1] == a + b[..|b| - 1];
    }
  }

  lemma {:induction false} MovedConcat(a: seq<QNode>, b: seq<QNode>, remap: map<nat, nat>)
    ensures Moved(a + b, remap) == Moved(a, remap) + Moved(b, remap)
  {
    if b == [] {
      assert a + b == a;
    } else {
      MovedConcat(a, b[..|b| - 1], remap);
      assert (a + b)[..|a + b| - 1] == a + b[..|b| - 1];
    }
  }

  /** The new slots of the nodes, for the table they move to: in range, and no two the same. */
  ghost predicate Injects(nodes: seq<QNode>, remap: map<nat, nat>, n: nat) {
    && (forall i | 0 <= i < |nodes| && nodes[i].idx in remap :: remap[nodes[i].idx] < n)
    && (forall i, j | 0 <= i < j < |nodes| && nodes[i].idx in remap && nodes[j].idx in remap ::
          remap[nodes[i].idx] != remap[nodes[j].idx])
  }

  /** Some node of the queue moved to slot `x`. */
  ghost predicate MovedTo(nodes: seq<QNode>, remap: map<nat, nat>, x: nat) {
    exists j :: 0 <= j < |nodes| && nodes[j].idx in remap && remap[nodes[j].idx] == x
  }

  /** A rebuild keeps nodes apart and in range. */
  lemma {:induction false} MovedIsSub(nodes: seq<QNode>, remap: map<nat, nat>, n: nat)
    requires Injects(nodes, remap, n)
    ensures InRange(Moved(nodes, remap), n) && Distinct(Moved(nodes, remap))
    ensures forall i | 0 <= i < |Moved(nodes, remap)| :: MovedTo(nodes, remap, Moved(nodes, remap)[i].idx)
  {
    if nodes != [] {
      var rest, last := nodes[..|nodes| - 1], nodes[|nodes| - 1];
      MovedIsSub(rest, remap, n);
      var moved := Moved(rest, remap);
      assert nodes[|nodes| - 1] == last;
      forall i | 0 <= i < |moved|
        ensures (last.idx in remap ==> moved[i].idx != remap[last.idx]) && MovedTo(nodes, remap, moved[i].idx)
      {
        assert MovedTo(rest, remap, moved[i].idx);
        var j :| 0 <= j < |rest| && rest[j].idx in remap && remap[rest[j].idx] == moved[i].idx;
        assert nodes[j] == rest[j];
      }
      assert last.idx in remap ==> MovedTo(nodes, remap, remap[last.idx]);
    }
  }

  lemma PassStep(all: seq<QNode>, k: nat, dead: set<nat>, remap: map<nat, nat>)
    requires k < |all|
    ensures Kept(all[..k + 1], dead) == if all[k].idx in dead then Kept(all[..k], dead)
            else Kept(all[..k], dead) + [all[k]]
    ensures Dropped(all[..k + 1], dead) == if all[k].idx in dead then Dropped(all[..k], dead) + [all[k]]
            else Dropped(all[..k], dead)
    ensures Moved(all[..k + 1], remap)
         == if all[k].idx in remap then Moved(all[..k], remap) + [QNode(remap[all[k].idx], all[k].cost)]
            else Moved(all[..k], remap)
    ensures Lost(all[..k + 1], remap) == if all[k].idx in remap then Lost(all[..k], remap)
            else Lost(all[..k], remap) + [all[k]]
  {
    assert all[..k + 1][..k] == all[..k];
  }

  lemma PassStart(all: seq<QNode>, dead: set<nat>, remap: map<nat, nat>)
    ensures all[0..] == all && Kept(all[..0], dead) == [] && Dropped(all[..0], dead) == []
    ensures Moved(all[..0], remap) == [] && Lost(all[..0], remap) == []
  {
  }

  lemma DeadIff(meta: seq<Meta>, i: nat)
    requires i < |meta|
    ensures i in DeadSlots(meta) <==> meta[i].dead
  {
  }

  lemma InRangeAt(nodes: seq<QNode>, n: nat, i: nat)
    requires InRange(nodes, n) && i < |nodes|
    ensures nodes[i].idx < n
  {
  }

  lemma Rotates(all: seq<QNode>, k: nat, back: seq<QNode>)
    requires k < |all|
    ensures (all[k..] + back)[0] == all[k] && (all[k..] + back)[1..] == all[k + 1..] + back
    ensures forall x: QNode {:trigger back + [x]} :: (all[k + 1..] + back) + [x] == all[k + 1..] + (back + [x])
  {
  }

  /** Rotates the queue once: the nodes of dead items drop out, the others keep their order. */
  method SweepQueue(q: EvictQueue, items: Items) returns (dropped: seq<QNode>)
    requires q.Valid() && items.meta !in q.repr && InRange(q.contents, items.meta.Length)
    modifies q.repr
    ensures q.Valid() && fresh(q.repr - old(q.repr))
    ensures q.contents == Kept(old(q.contents), DeadSlots(items.meta[..]))
    ensures dropped == Dropped(old(q.contents), DeadSlots(items.meta[..]))
  {
    hide *;
    ghost var all, meta := q.contents, items.meta[..];
    ghost var dead := DeadSlots(meta);
    dropped := [];
    var n := q.Len();
    ghost var k := 0;
    PassStart(all, dead, map[]);
    while n > 0
      invariant 0 <= k <= |all| && n == |all| - k
      invariant q.Valid() && fresh(q.repr - old(q.repr))
      invariant q.contents == all[k..] + Kept(all[..k], dead)
      invariant dropped == Dropped(all[..k], dead)
      invariant items.meta[..] == meta && items.meta !in q.repr
    {
      PassStep(all, k, dead, map[]);
      InRangeAt(all, items.meta.Length, k);
      DeadIff(meta, all[k].idx);
      var node, ok := q.Pop();
      Rotates(all, k, Kept(all[..k], dead));
      if items.meta[node.idx].dead {
        dropped := dropped + [node];
      } else {
        q.Push(node);
      }
      k := k + 1;
      n := n - 1;
    }
    assert all[..k] == all;
  }

  /** Re-links a queue after a table swap: dead nodes drop out, the others follow their items. */
  method RebuildQueue(q: EvictQueue, remap: map<nat, nat>) returns (dropped: seq<QNode>)
    requires q.Valid()
    modifies q.repr
    ensures q.Valid() && fresh(q.repr - old(q.repr))
    ensures q.contents == Moved(old(q.contents), remap)
    ensures dropped == Lost(old(q.contents), remap)
  {
    hide *;
    ghost var all := q.contents;
    dropped := [];
    var n := q.Len();
    ghost var k := 0;
    PassStart(all, {}, remap);
    while n > 0
      invariant 0 <= k <= |all| && n == |all| - k
      invariant q.Valid() && fresh(q.repr - old(q.repr))
      invariant q.contents == all[k..] + Moved(all[..k], remap)
      invariant dropped == Lost(all[..k], remap)
    {
      PassStep(all, k, {}, remap);
      var node, ok := q.Pop();
      Rotates(all, k, Moved(all[..k], remap));
      if node.idx in remap {
        q.Push(QNode(remap[node.idx], node.cost));
      } else {
        dropped := dropped + [node];
      }
      k := k + 1;
      n := n - 1;
    }
    assert all[..k] == all;
  }
}
