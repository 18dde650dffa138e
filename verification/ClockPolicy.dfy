/** GCLOCK: one FIFO queue; a node with chances left loses one and goes to the back, one without is evicted. */
module ClockPolicies {
  import opened PolicyContract
  import opened EvictQueues
  import opened QueuePasses

  /** How many times the hand passes a node before it takes it. */
  function Rounds(m: Meta, nowOff: nat): nat { if m.Spent(nowOff) then 0 else m.chances }

  function One(b: bool): nat { if b then 1 else 0 }

  /** The item after losing `k` chances. */
  function Aged(m: Meta, k: nat): Meta
    requires k <= m.chances
  {
    m.(chances := m.chances - k)
  }

  /** No node needs fewer rounds than `v`, and none before it needs as few. */
  ghost predicate FirstOfLeast(nodes: seq<QNode>, meta: seq<Meta>, nowOff: nat, v: nat) {
    && InRange(nodes, |meta|) && v < |nodes|
    && forall i | 0 <= i < |nodes| ::
         Rounds(meta[nodes[v].idx], nowOff) + One(i < v) <= Rounds(meta[nodes[i].idx], nowOff)
  }

  /** The queue once the hand has reached the node at `o`. */
  ghost function Turned(nodes: seq<QNode>, o: nat): (t: seq<QNode>)
    requires o <= |nodes|
    ensures |t| == |nodes| && (o < |nodes| ==> t[0] == nodes[o])
  {
    nodes[o..] + nodes[..o]
  }

  /** After `p` full passes and `o` nodes of the next: every node passed has paid for it, nothing else changed. */
  ghost predicate Passed(nodes: seq<QNode>, meta0: seq<Meta>, meta: seq<Meta>, nowOff: nat, p: nat, o: nat) {
    && InRange(nodes, |meta0|) && Distinct(nodes) && |meta| == |meta0| && o < |nodes|
    && (forall i | 0 <= i < |nodes| ::
          && p + One(i < o) <= Rounds(meta0[nodes[i].idx], nowOff)
          && meta[nodes[i].idx] == Aged(meta0[nodes[i].idx], p + One(i < o)))
    && (forall x: nat | x < |meta| && x !in Indices(nodes) :: meta[x] == meta0[x])
  }

  lemma PassStarts(nodes: seq<QNode>, meta: seq<Meta>, nowOff: nat)
    requires InRange(nodes, |meta|) && Distinct(nodes) && nodes != []
    ensures Passed(nodes, meta, meta, nowOff, 0, 0)
    ensures Turned(nodes, 0) == nodes
  {
  }

  /** The node at `o` had a chance left: it pays, and the hand moves on. */
  lemma PassMoves(nodes: seq<QNode>, meta0: seq<Meta>, meta: seq<Meta>, nowOff: nat, p: nat, o: nat)
    requires Passed(nodes, meta0, meta, nowOff, p, o)
    requires nodes[o].idx < |meta|
    requires !meta[nodes[o].idx].Spent(nowOff) && meta[nodes[o].idx].chances > 0
    ensures var meta' := meta[nodes[o].idx := meta[nodes[o].idx].(chances := meta[nodes[o].idx].chances - 1)];
            if o + 1 < |nodes| then Passed(nodes, meta0, meta', nowOff, p, o + 1)
            else Passed(nodes, meta0, meta', nowOff, p + 1, 0)
  {
    var x := nodes[o].idx;
    var meta' := meta[x := Aged(meta[x], 1)];
    assert p + One(o < o) <= Rounds(meta0[x], nowOff);
    assert x in Indices(nodes) by { assert Indices(nodes)[o] == x; }
    forall i | 0 <= i < |nodes| ensures meta'[nodes[i].idx] == Aged(meta0[nodes[i].idx], p + One(i <= o)) {
      assert i != o ==> nodes[i].idx != x;
    }
    if o + 1 == |nodes| {
      forall i | 0 <= i < |nodes| ensures p + 1 <= Rounds(meta0[nodes[i].idx], nowOff) {}
    }
  }

  lemma TurnsOn(nodes: seq<QNode>, o: nat)
    requires o < |nodes|
    ensures Turned(nodes, o)[1..] + [nodes[o]] == Turned(nodes, if o + 1 < |nodes| then o + 1 else 0)
  {
    if o + 1 == |nodes| {
      assert Turned(nodes, o)[1..] + [nodes[o]] == nodes == Turned(nodes, 0);
    } else {
      assert Turned(nodes, o)[1..] + [nodes[o]] == Turned(nodes, o + 1);
    }
  }

  /** The node at `o` is spent or out of chances: it is the first of those needing the fewest rounds. */
  lemma PassEnds(nodes: seq<QNode>, meta0: seq<Meta>, meta: seq<Meta>, nowOff: nat, p: nat, o: nat)
    requires Passed(nodes, meta0, meta, nowOff, p, o)
    requires nodes[o].idx < |meta|
    requires meta[nodes[o].idx].Spent(nowOff) || meta[nodes[o].idx].chances == 0
    ensures FirstOfLeast(nodes, meta0, nowOff, o) && p == Rounds(meta0[nodes[o].idx], nowOff)
  {
    assert p + One(o < o) <= Rounds(meta0[nodes[o].idx], nowOff);
  }

  /** The circle without the node at `o`. */
  lemma Without(nodes: seq<QNode>, o: nat, n: nat)
    requires o < |nodes| && InRange(nodes, n) && Distinct(nodes)
    ensures EvictsOne(nodes, nodes[o + 1..] + nodes[..o], nodes[o].idx)
    ensures Turned(nodes, o)[1..] == nodes[o + 1..] + nodes[..o]
    ensures InRange(nodes[o + 1..] + nodes[..o], n) && Distinct(nodes[o + 1..] + nodes[..o])
  {
    assert EvictsOne(nodes, nodes[o + 1..] + nodes[..o], nodes[o].idx) by { WithoutOne(nodes, o); }
  }

  lemma WithoutOne(nodes: seq<QNode>, o: nat)
    requires o < |nodes|
    ensures EvictsOne(nodes, nodes[o + 1..] + nodes[..o], nodes[o].idx)
  {
    IndicesConcat(nodes[o + 1..], nodes[..o]);
    assert Indices(nodes) == Indices(nodes[..o]) + [nodes[o].idx] + Indices(nodes[o + 1..]);
    Reorder(Indices(nodes[..o]), nodes[o].idx, Indices(nodes[o + 1..]));
    assert nodes == nodes[..o] + [nodes[o]] + nodes[o + 1..];
    Reorder(nodes[..o], nodes[o], nodes[o + 1..]);
  }

  lemma Reorder<T>(a: seq<T>, x: T, b: seq<T>)
    ensures multiset(a + [x] + b) == multiset(b + a) + multiset{x}
  {
  }

  lemma PassBound(nodes: seq<QNode>, meta0: seq<Meta>, meta: seq<Meta>, nowOff: nat, p: nat, o: nat)
    requires Passed(nodes, meta0, meta, nowOff, p, o)
    ensures |meta| == |meta0| && o < |nodes| && nodes[0].idx < |meta0| && nodes[o].idx < |meta|
    ensures p <= Rounds(meta0[nodes[0].idx], nowOff) && (o > 0 ==> p < Rounds(meta0[nodes[0].idx], nowOff))
  {
    assert p + One(0 < o) <= Rounds(meta0[nodes[0].idx], nowOff);
  }

  lemma NothingQueued(n: nat)
    ensures InRange([], n) && Distinct([])
  {
  }

  class ClockPolicy {
    /** The items of the table in use; a rebuild swaps them. */
    var items: Items
    const q: EvictQueue

    constructor (items: Items)
      ensures this.items == items && fresh(q) && fresh(q.repr) && Valid() && q.contents == []
    {
      this.items := items;
      q := new EvictQueue();
    }

    ghost predicate Valid()
      reads this, q, q.repr
    {
      && q.Valid() && items.meta !in q.repr && this !in q.repr
      && InRange(q.contents, items.meta.Length) && Distinct(q.contents)
    }

    lemma ValidParts()
      ensures Valid() <==>
                && q.Valid() && items.meta !in q.repr && this !in q.repr
                && InRange(q.contents, items.meta.Length) && Distinct(q.contents)
    {
    }

    method Add(node: QNode)
      requires Valid() && node.idx < items.meta.Length && node.idx !in Indices(q.contents)
      modifies q.repr
      ensures Valid() && fresh(q.repr - old(q.repr)) && q.contents == old(q.contents) + [node]
    {
      forall i | 0 <= i < |q.contents| ensures q.contents[i].idx != node.idx {
        assert Indices(q.contents)[i] == q.contents[i].idx;
      }
      q.Push(node);
    }

    /** The victim is the first node among those with the fewest chances left, dead and expired ones having none; every
        node the hand passed lost a chance for each pass and kept its place in the circle. */
    method Evict(nowOff: nat) returns (victim: nat, ok: bool, ghost v: nat)
      requires Valid()
      modifies q.repr, items.meta
      ensures Valid() && fresh(q.repr - old(q.repr))
      ensures ok <==> old(q.contents) != []
      ensures !ok ==> q.contents == old(q.contents) && items.meta[..] == old(items.meta[..])
      ensures ok ==>
                var nodes, meta0 := old(q.contents), old(items.meta[..]);
                && FirstOfLeast(nodes, meta0, nowOff, v) && victim == nodes[v].idx
                && q.contents == nodes[v + 1..] + nodes[..v] && EvictsOne(nodes, q.contents, victim)
                && Passed(nodes, meta0, items.meta[..], nowOff, Rounds(meta0[victim], nowOff), v)
    {
      hide *;
      ValidParts();
      ghost var nodes, meta0 := q.contents, items.meta[..];
      ghost var p, o := 0, 0;
      if nodes != [] {
        PassStarts(nodes, meta0, nowOff);
        PassBound(nodes, meta0, meta0, nowOff, 0, 0);
      }
      while true
        invariant q.Valid() && items.meta !in q.repr && this !in q.repr && fresh(q.repr - old(q.repr))
        invariant nodes == [] ==> q.contents == [] && items.meta[..] == meta0
        invariant nodes != [] ==>
                    && 0 <= o < |nodes| && q.contents == Turned(nodes, o)
                    && Passed(nodes, meta0, items.meta[..], nowOff, p, o)
        invariant nodes != [] ==> nodes[0].idx < |meta0|
        decreases if nodes == [] then 0 else Rounds(meta0[nodes[0].idx], nowOff) - p, |nodes| - o
      {
        var candidate, some := q.Pop();
        if !some {
          NothingQueued(items.meta.Length);
          ValidParts();
          return 0, false, 0;
        }
        ghost var meta := items.meta[..];
        PassBound(nodes, meta0, meta, nowOff, p, o);
        assert candidate == nodes[o];
        var m := items.meta[candidate.idx];
        if m.Spent(nowOff) || m.chances == 0 {
          PassEnds(nodes, meta0, meta, nowOff, p, o);
          Without(nodes, o, items.meta.Length);
          ValidParts();
          return candidate.idx, true, o;
        }
        PassMoves(nodes, meta0, meta, nowOff, p, o);
        TurnsOn(nodes, o);
        items.meta[candidate.idx] := m.(chances := m.chances - 1);
        ghost var meta' := items.meta[..];
        assert meta' == meta[candidate.idx := m.(chances := m.chances - 1)];
        q.Push(candidate);
        assert items.meta[..] == meta';
        if o + 1 < |nodes| {
          o := o + 1;
        } else {
          p, o := p + 1, 0;
          PassBound(nodes, meta0, meta', nowOff, p, o);
        }
      }
    }

    method Sweep() returns (released: seq<nat>)
      requires Valid()
      modifies q.repr
      ensures Valid() && fresh(q.repr - old(q.repr))
      ensures q.contents == Kept(old(q.contents), DeadSlots(items.meta[..]))
      ensures Sweeps(old(q.contents), q.contents, released, DeadSlots(items.meta[..]))
    {
      KeptIsSub(q.contents, DeadSlots(items.meta[..]), items.meta.Length);
      var dropped := SweepQueue(q, items);
      released := Indices(dropped);
    }

    /** Follows the items to a new table: dropped nodes leave, the others keep their order. */
    method Rebuild(remap: map<nat, nat>, next: Items)
      requires Valid() && Injects(q.contents, remap, next.meta.Length) && next.meta !in q.repr
      modifies q.repr, this`items
      ensures Valid() && fresh(q.repr - old(q.repr)) && items == next && q.contents == Moved(old(q.contents), remap)
      ensures Relinks(old(q.contents), Indices(old(q.contents)), q.contents, remap)
    {
      MovedIsSub(q.contents, remap, next.meta.Length);
      var dropped := RebuildQueue(q, remap);
      items := next;
    }
  }
}
