/**
 What a shard relies on from its eviction policy, stated over its queue nodes. `Policy` stands for any policy: the shard
 is proved against its contracts alone, and the four built-in policies are each proved to meet the same predicates.
 */
module PolicyContract {

  datatype QNode = QNode(idx: nat, cost: nat)

  function Indices(nodes: seq<QNode>): (r: seq<nat>)
    ensures |r| == |nodes|
    ensures forall i | 0 <= i < |r| :: r[i] == nodes[i].idx
  {
    seq(|nodes|, i requires 0 <= i < |nodes| => nodes[i].idx)
  }

  lemma IndicesConcat(a: seq<QNode>, b: seq<QNode>)
    ensures Indices(a + b) == Indices(a) + Indices(b)
  {
  }

  /** The nodes of items that are not dead, in order. */
  function Kept(nodes: seq<QNode>, dead: set<nat>): seq<QNode> {
    if nodes == [] then []
    else
      var rest, last := Kept(nodes[..|nodes| - 1], dead), nodes[|nodes| - 1];
      if last.idx in dead then rest else rest + [last]
  }

  /** The nodes of dead items, in order. */
  function Dropped(nodes: seq<QNode>, dead: set<nat>): seq<QNode> {
    if nodes == [] then []
    else
      var rest, last := Dropped(nodes[..|nodes| - 1], dead), nodes[|nodes| - 1];
      if last.idx in dead then rest + [last] else rest
  }

  /** The nodes a rebuild keeps, at their new slots, in order. */
  function Moved(nodes: seq<QNode>, remap: map<nat, nat>): seq<QNode> {
    if nodes == [] then []
    else
      var rest, last := Moved(nodes[..|nodes| - 1], remap), nodes[|nodes| - 1];
      if last.idx in remap then rest + [QNode(remap[last.idx], last.cost)] else rest
  }

  /** Exactly one node left, the one referencing `victim`; the others stay as they are. */
  ghost predicate EvictsOne(before: seq<QNode>, after: seq<QNode>, victim: nat) {
    multiset(Indices(before)) == multiset(Indices(after)) + multiset{victim} && multiset(after) <= multiset(before)
  }

  /** The nodes of dead items were handed to `released`; every other node stayed, in order. */
  ghost predicate Sweeps(before: seq<QNode>, after: seq<QNode>, released: seq<nat>, dead: set<nat>) {
    after == Kept(before, dead) && multiset(released) == multiset(Indices(Dropped(before, dead)))
  }

  /** Every node was visited once; those remapped stayed, each at its own item's new slot and with its cost. */
  ghost predicate Relinks(before: seq<QNode>, visit: seq<nat>, after: seq<QNode>, remap: map<nat, nat>) {
    multiset(visit) == multiset(Indices(before)) && multiset(after) == multiset(Moved(before, remap))
  }

  // ---- What the contract means for the slots referenced ----

  lemma OneMoreSwept<T>(all: seq<T>, kept: seq<T>, dropped: seq<T>, x: T, drops: bool)
    requires multiset(all) == multiset(kept) + multiset(dropped)
    ensures multiset(all + [x])
         == multiset(if drops then kept else kept + [x]) + multiset(if drops then dropped + [x] else dropped)
  {
  }

  /** What is kept and what is dropped together are the queue; none of the kept is dead, all of the dropped are. */
  lemma {:induction false} KeptAndDropped(nodes: seq<QNode>, dead: set<nat>)
    ensures multiset(Indices(nodes)) == multiset(Indices(Kept(nodes, dead))) + multiset(Indices(Dropped(nodes, dead)))
    ensures forall i | i in Indices(Dropped(nodes, dead)) :: i in dead
    ensures forall i | i in Indices(Kept(nodes, dead)) :: i !in dead
  {
    if nodes != [] {
      var rest, last := nodes[..|nodes| - 1], nodes[|nodes| - 1];
      KeptAndDropped(rest, dead);
      assert nodes == rest + [last];
      IndicesConcat(rest, [last]);
      var kept, dropped := Kept(rest, dead), Dropped(rest, dead);
      OneMoreSwept(Indices(rest), Indices(kept), Indices(dropped), last.idx, last.idx in dead);
      IndicesConcat(dropped, [last]);
      IndicesConcat(kept, [last]);
      assert Indices([last]) == [last.idx];
    }
  }

  lemma {:induction false} SweptNodes(nodes: seq<QNode>, dead: set<nat>)
    ensures multiset(nodes) == multiset(Kept(nodes, dead)) + multiset(Dropped(nodes, dead))
  {
    if nodes != [] {
      var rest, last := nodes[..|nodes| - 1], nodes[|nodes| - 1];
      SweptNodes(rest, dead);
      assert nodes == rest + [last];
      OneMoreSwept(rest, Kept(rest, dead), Dropped(rest, dead), last, last.idx in dead);
    }
  }

  lemma SweepsMeans(before: seq<QNode>, after: seq<QNode>, released: seq<nat>, dead: set<nat>)
    requires Sweeps(before, after, released, dead)
    ensures multiset(Indices(before)) == multiset(Indices(after)) + multiset(released)
    ensures forall i | i in released :: i in dead
    ensures forall i | i in Indices(after) :: i !in dead
    ensures multiset(after) <= multiset(before)
  {
    KeptAndDropped(before, dead);
    SweptNodes(before, dead);
    forall i | i in released ensures i in dead {
      assert i in multiset(released);
      assert i in Indices(Dropped(before, dead));
    }
  }

  /** The slots a rebuild's visits lead to. */
  function Remapped(visit: seq<nat>, remap: map<nat, nat>): seq<nat> {
    if visit == [] then []
    else
      var rest := Remapped(visit[..|visit| - 1], remap);
      var last := visit[|visit| - 1];
      if last in remap then rest + [remap[last]] else rest
  }

  lemma {:induction false} MovedIsRemapped(nodes: seq<QNode>, remap: map<nat, nat>)
    ensures Indices(Moved(nodes, remap)) == Remapped(Indices(nodes), remap)
  {
    if nodes != [] {
      var rest := nodes[..|nodes| - 1];
      MovedIsRemapped(rest, remap);
      assert Indices(nodes)[..|nodes| - 1] == Indices(rest);
    }
  }

  lemma {:induction false} RemappedConcat(a: seq<nat>, b: seq<nat>, remap: map<nat, nat>)
    ensures Remapped(a + b, remap) == Remapped(a, remap) + Remapped(b, remap)
  {
    if b == [] {
      assert a + b == a;
    } else {
      RemappedConcat(a, b[..|b| - 1], remap);
      assert (a + b)[..|a + b| - 1] == a + b[..|b| - 1];
    }
  }

  /** Removing one element from both sides of an equality of bags. */
  lemma TakenOut<T>(a: seq<T>, b: seq<T>) returns (j: nat)
    requires a != [] && multiset(a) == multiset(b)
    ensures j < |b| && b[j] == a[|a| - 1] && b == b[..j] + [b[j]] + b[j + 1..]
    ensures multiset(a[..|a| - 1]) == multiset(b[..j] + b[j + 1..])
  {
    var x := a[|a| - 1];
    assert a == a[..|a| - 1] + [x];
    assert x in multiset(b);
    j :| j < |b| && b[j] == x;
    assert b == b[..j] + [x] + b[j + 1..];
    OneLess(multiset(a[..|a| - 1]), multiset(b[..j] + b[j + 1..]), x);
  }

  lemma OneLess<T>(a: multiset<T>, b: multiset<T>, x: T)
    requires a + multiset{x} == b + multiset{x}
    ensures a == b
  {
    assert a == (a + multiset{x}) - multiset{x} && b == (b + multiset{x}) - multiset{x};
  }

  /** The order of the visits does not matter to where they lead. */
  lemma {:induction false} SameRemap(a: seq<nat>, b: seq<nat>, remap: map<nat, nat>)
    requires multiset(a) == multiset(b)
    ensures multiset(Remapped(a, remap)) == multiset(Remapped(b, remap))
  {
    if a == [] {
      assert |multiset(b)| == 0;
    } else {
      var j := TakenOut(a, b);
      var before, x, after := b[..j], [b[j]], b[j + 1..];
      SameRemap(a[..|a| - 1], before + after, remap);
      assert a == a[..|a| - 1] + x;
      RemappedConcat(a[..|a| - 1], x, remap);
      RemappedConcat(before, after, remap);
      RemappedConcat(before, x, remap);
      RemappedConcat(before + x, after, remap);
    }
  }

  lemma {:induction false} SameIndices(a: seq<QNode>, b: seq<QNode>)
    requires multiset(a) == multiset(b)
    ensures multiset(Indices(a)) == multiset(Indices(b))
  {
    if a == [] {
      assert |multiset(b)| == 0;
    } else {
      var j := TakenOut(a, b);
      var before, x, after := b[..j], [b[j]], b[j + 1..];
      SameIndices(a[..|a| - 1], before + after);
      assert a == a[..|a| - 1] + x;
      IndicesConcat(a[..|a| - 1], x);
      IndicesConcat(before, after);
      IndicesConcat(before, x);
      IndicesConcat(before + x, after);
    }
  }

  lemma RelinksMeans(before: seq<QNode>, visit: seq<nat>, after: seq<QNode>, remap: map<nat, nat>)
    requires Relinks(before, visit, after, remap)
    ensures multiset(Indices(after)) == multiset(Remapped(visit, remap))
  {
    SameIndices(after, Moved(before, remap));
    MovedIsRemapped(before, remap);
    SameRemap(visit, Indices(before), remap);
  }

  class Policy {
    var nodes: seq<QNode>

    constructor ()
      ensures nodes == []
    {
      nodes := [];
    }

    method Add(node: QNode)
      modifies this
      ensures multiset(nodes) == multiset(old(nodes)) + multiset{node}
      ensures multiset(Indices(nodes)) == multiset(Indices(old(nodes))) + multiset{node.idx}
    {
      IndicesConcat(nodes, [node]);
      assert Indices([node]) == [node.idx];
      nodes := nodes + [node];
    }

    method Evict(nowOff: nat) returns (victim: nat, ok: bool)
      modifies this
      ensures ok <==> old(nodes) != []
      ensures ok ==> |nodes| < |old(nodes)| && EvictsOne(old(nodes), nodes, victim)
      ensures !ok ==> nodes == old(nodes)
    {
      if nodes == [] {
        return 0, false;
      }
      assert nodes == [nodes[0]] + nodes[1..];
      IndicesConcat([nodes[0]], nodes[1..]);
      assert Indices([nodes[0]]) == [nodes[0].idx];
      assert multiset(nodes) == multiset([nodes[0]]) + multiset(nodes[1..]);
      victim, ok := nodes[0].idx, true;
      nodes := nodes[1..];
    }

    method Sweep(dead: set<nat>) returns (released: seq<nat>)
      modifies this
      ensures Sweeps(old(nodes), nodes, released, dead)
    {
      released := Indices(Dropped(nodes, dead));
      nodes := Kept(nodes, dead);
    }

    /** The order in which Rebuild visits the nodes. */
    method Visit() returns (visit: seq<nat>)
      ensures multiset(visit) == multiset(Indices(nodes))
    {
      visit := Indices(nodes);
    }

    method Relink(visit: seq<nat>, remap: map<nat, nat>)
      requires multiset(visit) == multiset(Indices(nodes))
      modifies this
      ensures Relinks(old(nodes), visit, nodes, remap)
    {
      nodes := Moved(nodes, remap);
    }
  }
}
