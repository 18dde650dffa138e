/**
 The course of an eviction over two queues, from the state before it: which newcomers leave the first queue, and which
 node is the victim. Newcomers leave from the head while the first queue is over its budget, or when nothing else is
 queued; main is run as GCLOCK once the rest of the first queue fits.
 */
module EvictCourses {
  import opened PolicyContract
  import opened QueuePasses
  import opened TwoQueuePolicies
  import opened ClockPolicies

  /** `left` newcomers went to main before the victim was found: at the head of the first queue, or at `v` in main. */
  datatype Course = FromFirst(left: nat) | FromMain(left: nat, v: nat)

  /** The counters once `nodes` were promoted. */
  ghost function Cleaned(meta: seq<Meta>, nodes: seq<QNode>): (r: seq<Meta>)
    ensures |r| == |meta|
  {
    if nodes == [] then meta else Cleared(Cleaned(meta, nodes[..|nodes| - 1]), nodes[|nodes| - 1].idx)
  }

  /** The first queue from `i` on exceeds its budget. */
  ghost predicate Over(first: seq<QNode>, cap: int, i: nat) {
    i < |first| && CostSum(first[i..]) > cap
  }

  /** The newcomer at `i` is due to leave: the queue is over its budget, or there is nothing but newcomers. */
  ghost predicate Due(b: Queues, cap: int, i: nat) {
    Over(b.first, cap, i) || (i == 0 < |b.first| && b.main == [])
  }

  /** The queues, the counters and the victim after an eviction that took this course. */
  ghost predicate Evicts(b: Queues, cap: int, nowOff: nat, c: Course, q: Queues, victim: nat) {
    && c.left <= |b.first| && (forall i: nat | i < c.left :: Due(b, cap, i))
    && var nodes, cleaned := b.main + b.first[..c.left], Cleaned(b.meta, b.first[..c.left]);
       match c
       case FromFirst(left) =>
         && Due(b, cap, left) && victim == b.first[left].idx
         && q.first == b.first[left + 1..] && q.main == nodes && q.meta == cleaned
       case FromMain(left, v) =>
         && !Over(b.first, cap, left) && FirstOfLeast(nodes, cleaned, nowOff, v) && victim == nodes[v].idx
         && q.first == b.first[left..] && q.main == nodes[v + 1..] + nodes[..v]
         && Passed(nodes, cleaned, q.meta, nowOff, Rounds(cleaned[victim], nowOff), v)
  }

  // ---- An eviction under way ----

  /** `left` newcomers were promoted, then main turned by `p` passes and `o` nodes. */
  datatype Progress = Progress(left: nat, p: nat, o: nat)

  ghost predicate Midway(b: Queues, cap: int, nowOff: nat, at: Progress, q: Queues) {
    && at.left <= |b.first| && q.first == b.first[at.left..] && (forall i: nat | i < at.left :: Due(b, cap, i))
    && InRange(b.main + b.first, |b.meta|) && Distinct(b.main + b.first)
    && (at.p > 0 || at.o > 0 ==> !Over(b.first, cap, at.left))
    && var nodes, cleaned := b.main + b.first[..at.left], Cleaned(b.meta, b.first[..at.left]);
       if nodes == [] then q.main == [] && q.meta == b.meta && at.p == at.o == 0
       else at.o < |nodes| && q.main == Turned(nodes, at.o) && Passed(nodes, cleaned, q.meta, nowOff, at.p, at.o)
  }

  /** It is the first queue's turn. */
  ghost predicate FirstsTurn(q: Queues, cap: int) {
    q.first != [] && (CostSum(q.first) > cap || q.main == [])
  }

  lemma TurnIs(q: Queues, cap: int)
    ensures FirstsTurn(q, cap) <==> q.first != [] && (CostSum(q.first) > cap || q.main == [])
  {
  }

  lemma MidwayStarts(b: Queues, cap: int, nowOff: nat)
    requires Sound(b.first, b.main, |b.meta|)
    ensures Midway(b, cap, nowOff, Progress(0, 0, 0), b)
  {
    SoundIsDistinct(b.first, b.main, |b.meta|);
    assert b.main + b.first[..0] == b.main;
    PartIsDistinct(b, 0);
    if b.main != [] {
      PassStarts(b.main, b.meta, nowOff);
    }
  }

  lemma SoundIsDistinct(first: seq<QNode>, main: seq<QNode>, n: nat)
    requires Sound(first, main, n)
    ensures InRange(main + first, n) && Distinct(main + first)
  {
    IndicesConcat(main, first);
    assert multiset(Indices(main + first)) == Bag(first, main);
    NoRepeat(main + first, n);
  }

  lemma PartIsDistinct(b: Queues, left: nat)
    requires left <= |b.first| && InRange(b.main + b.first, |b.meta|) && Distinct(b.main + b.first)
    ensures InRange(b.main + b.first[..left], |b.meta|) && Distinct(b.main + b.first[..left])
  {
    var all, part := b.main + b.first, b.main + b.first[..left];
    assert forall i | 0 <= i < |part| :: part[i] == all[i];
  }

  /** Until main has turned, it is what was there and the promoted, with their counters cleared. */
  lemma NotTurned(b: Queues, cap: int, nowOff: nat, left: nat, q: Queues)
    requires Midway(b, cap, nowOff, Progress(left, 0, 0), q)
    ensures q.main == b.main + b.first[..left] && q.meta == Cleaned(b.meta, b.first[..left])
  {
    var nodes, cleaned := b.main + b.first[..left], Cleaned(b.meta, b.first[..left]);
    if nodes == [] {
      assert left == 0;
    } else {
      forall x: nat | x < |q.meta| ensures q.meta[x] == cleaned[x] {
        if x in Indices(nodes) {
          var i :| 0 <= i < |nodes| && nodes[i].idx == x;
        }
      }
    }
  }

  /** On the first queue's turn its head is due, main has not turned, and the head is as it was before the eviction. */
  lemma FirstIsNext(b: Queues, cap: int, nowOff: nat, at: Progress, q: Queues)
    requires Midway(b, cap, nowOff, at, q) && FirstsTurn(q, cap)
    ensures at.left < |b.first| && q.first[0] == b.first[at.left] && Due(b, cap, at.left) && at.p == at.o == 0
    ensures q.main == b.main + b.first[..at.left] && q.meta == Cleaned(b.meta, b.first[..at.left])
    ensures var x := q.first[0].idx; x < |b.meta| && q.meta[x] == b.meta[x]
  {
    NotTurned(b, cap, nowOff, at.left, q);
    NextUntouched(b, at.left);
  }

  /** Promotions do not touch the newcomer that is next. */
  lemma NextUntouched(b: Queues, left: nat)
    requires left < |b.first| && InRange(b.main + b.first, |b.meta|) && Distinct(b.main + b.first)
    ensures var x := b.first[left].idx; x < |b.meta| && Cleaned(b.meta, b.first[..left])[x] == b.meta[x]
  {
    hide Cleaned;
    var all, x := b.main + b.first, b.first[left].idx;
    assert all[|b.main| + left] == b.first[left];
    CleanedAt(b.meta, b.first[..left], x);
    assert forall i | 0 <= i < left :: all[|b.main| + i] == b.first[i];
  }

  lemma {:induction false} CleanedAt(meta: seq<Meta>, nodes: seq<QNode>, x: nat)
    requires x < |meta|
    ensures Cleaned(meta, nodes)[x] == if x in Indices(nodes) then meta[x].(chances := 0) else meta[x]
  {
    if nodes != [] {
      var rest, last := nodes[..|nodes| - 1], nodes[|nodes| - 1];
      CleanedAt(meta, rest, x);
      assert Indices(nodes) == Indices(rest) + [last.idx];
    }
  }

  /** A due newcomer is promoted. */
  lemma FirstMoves(b: Queues, cap: int, nowOff: nat, at: Progress, q: Queues)
    requires Midway(b, cap, nowOff, at, q) && FirstsTurn(q, cap)
    ensures var node := q.first[0];
            Midway(b, cap, nowOff, Progress(at.left + 1, 0, 0),
                   Queues(q.first[1..], q.main + [node], Cleared(q.meta, node.idx)))
  {
    hide Due, Cleared, Over, FirstsTurn;
    FirstIsNext(b, cap, nowOff, at, q);
    var left, node := at.left, q.first[0];
    var nodes := b.main + b.first[..left + 1];
    assert b.first[..left + 1] == b.first[..left] + [b.first[left]];
    assert nodes == q.main + [node];
    assert b.first[..left + 1][..left] == b.first[..left];
    assert Cleaned(b.meta, b.first[..left + 1]) == Cleared(q.meta, node.idx);
    PartIsDistinct(b, left + 1);
    PassStarts(nodes, Cleaned(b.meta, b.first[..left + 1]), nowOff);
  }

  /** The head of the first queue is taken. */
  lemma FirstEnds(b: Queues, cap: int, nowOff: nat, at: Progress, q: Queues)
    requires Midway(b, cap, nowOff, at, q) && FirstsTurn(q, cap)
    ensures Evicts(b, cap, nowOff, FromFirst(at.left), Queues(q.first[1..], q.main, q.meta), q.first[0].idx)
  {
    FirstIsNext(b, cap, nowOff, at, q);
  }

  /** Main turns by one node. */
  lemma MainMoves(b: Queues, cap: int, nowOff: nat, at: Progress, q: Queues) returns (at': Progress)
    requires Midway(b, cap, nowOff, at, q) && !FirstsTurn(q, cap)
    requires q.main != [] && !Takes(q.meta, q.main[0].idx, nowOff)
    ensures Midway(b, cap, nowOff, at', q.(main := q.main[1..] + [q.main[0]], meta := Revoked(q.meta, q.main[0].idx)))
    ensures at'.left == at.left && (at'.p > 0 || at'.o > 0)
  {
    hide Passed, Turned, Distinct, InRange, Cleaned, Due, Takes, Revoked;
    var nodes, cleaned, o := b.main + b.first[..at.left], Cleaned(b.meta, b.first[..at.left]), at.o;
    PassBound(nodes, cleaned, q.meta, nowOff, at.p, o);
    assert q.main[0] == nodes[o];
    TakesIs(q.meta, nodes[o].idx, nowOff);
    RevokedIs(q.meta, nodes[o].idx);
    PassMoves(nodes, cleaned, q.meta, nowOff, at.p, o);
    TurnsOn(nodes, o);
    at' := if o + 1 < |nodes| then Progress(at.left, at.p, o + 1) else Progress(at.left, at.p + 1, 0);
  }

  /** The head of main is taken. */
  lemma MainEnds(b: Queues, cap: int, nowOff: nat, at: Progress, q: Queues)
    requires Midway(b, cap, nowOff, at, q) && !FirstsTurn(q, cap)
    requires q.main != [] && Takes(q.meta, q.main[0].idx, nowOff)
    ensures Evicts(b, cap, nowOff, FromMain(at.left, at.o), q.(main := q.main[1..]), q.main[0].idx)
  {
    hide Due, InRange, Distinct, Cleaned;
    var nodes, cleaned := b.main + b.first[..at.left], Cleaned(b.meta, b.first[..at.left]);
    PassBound(nodes, cleaned, q.meta, nowOff, at.p, at.o);
    PassEnds(nodes, cleaned, q.meta, nowOff, at.p, at.o);
  }

  /** Nothing is queued any more exactly if nothing was. */
  lemma MidwayNothing(b: Queues, cap: int, nowOff: nat, at: Progress, q: Queues)
    requires Midway(b, cap, nowOff, at, q) && q.first == q.main == []
    ensures b.first == b.main == [] && q.meta == b.meta
  {
    var nodes := b.main + b.first[..at.left];
    assert nodes != [] ==> |q.main| == |nodes|;
  }

  // ---- What an eviction means for the policy contract ----

  lemma CleanedIsAged(meta: seq<Meta>, nodes: seq<QNode>)
    ensures OnlyAged(meta, Cleaned(meta, nodes))
  {
    forall x: nat | x < |meta|
      ensures Cleaned(meta, nodes)[x].chances <= meta[x].chances
      ensures Cleaned(meta, nodes)[x] == meta[x].(chances := Cleaned(meta, nodes)[x].chances)
    {
      CleanedAt(meta, nodes, x);
    }
  }

  lemma PassedIsAged(nodes: seq<QNode>, meta: seq<Meta>, meta': seq<Meta>, nowOff: nat, p: nat, o: nat)
    requires Passed(nodes, meta, meta', nowOff, p, o)
    ensures OnlyAged(meta, meta')
  {
    forall x: nat | x < |meta|
      ensures meta'[x].chances <= meta[x].chances && meta'[x] == meta[x].(chances := meta'[x].chances)
    {
      if x in Indices(nodes) {
        var i :| 0 <= i < |nodes| && nodes[i].idx == x;
      }
    }
  }

  /** The victim of a turn of main is out of chances or spent. */
  lemma LeastIsTakeable(nodes: seq<QNode>, meta: seq<Meta>, meta': seq<Meta>, nowOff: nat, v: nat)
    requires InRange(nodes, |meta|) && v < |nodes|
    requires Passed(nodes, meta, meta', nowOff, Rounds(meta[nodes[v].idx], nowOff), v)
    ensures nodes[v].idx < |meta'| && Takeable(meta'[nodes[v].idx], nowOff)
  {
    assert One(v < v) == 0;
  }

  /** An eviction over two queues is one the policy contract asks for. */
  lemma MeetsContract(b: Queues, cap: int, nowOff: nat, c: Course, q: Queues, victim: nat)
    requires Evicts(b, cap, nowOff, c, q, victim)
    ensures EvictsOne(b.first + b.main, q.first + q.main, victim)
  {
    hide Passed, Cleaned, Over, Due, FirstOfLeast, EvictsOne;
    var nodes, cleaned := b.main + b.first[..c.left], Cleaned(b.meta, b.first[..c.left]);
    if c.FromFirst? {
      DueBound(b, cap, c.left);
      LeavesFirst(b, c.left);
      NodesOut(b.first + b.main, q.first + q.main, b.first[c.left]);
    } else {
      LeastBound(nodes, cleaned, nowOff, c.v);
      LeavesMain(b, c.left, c.v);
      NodesOut(b.first + b.main, q.first + q.main, nodes[c.v]);
    }
  }

  lemma LeavesFirst(b: Queues, left: nat)
    requires left < |b.first|
    ensures multiset(b.first + b.main)
         == multiset(b.first[left + 1..] + (b.main + b.first[..left])) + multiset{b.first[left]}
  {
    assert b.first == b.first[..left] + [b.first[left]] + b.first[left + 1..];
  }

  lemma LeavesMain(b: Queues, left: nat, v: nat)
    requires left <= |b.first| && v < |b.main + b.first[..left]|
    ensures var nodes := b.main + b.first[..left];
            multiset(b.first + b.main)
              == multiset(b.first[left..] + (nodes[v + 1..] + nodes[..v])) + multiset{nodes[v]}
  {
    var nodes := b.main + b.first[..left];
    assert b.first == b.first[..left] + b.first[left..];
    assert nodes == nodes[..v] + [nodes[v]] + nodes[v + 1..];
    Reorder(nodes[..v], nodes[v], nodes[v + 1..]);
    assert multiset(nodes) == multiset(nodes[v + 1..] + nodes[..v]) + multiset{nodes[v]};
    assert multiset(b.first + b.main) == multiset(nodes) + multiset(b.first[left..]);
  }

  lemma NodesOut(before: seq<QNode>, after: seq<QNode>, node: QNode)
    requires multiset(before) == multiset(after) + multiset{node}
    ensures EvictsOne(before, after, node.idx)
  {
    IndicesLast(after, node);
    assert multiset(after + [node]) == multiset(after) + multiset{node};
    SameIndices(before, after + [node]);
  }

  /** Whatever course it took: counters only fell, the victim was takeable, and exactly its node left. A first queue
      within its budget stays as it is while main has anything to give. */
  lemma EvictsMeans(b: Queues, cap: int, nowOff: nat, c: Course, q: Queues, victim: nat)
    requires Sound(b.first, b.main, |b.meta|) && Evicts(b, cap, nowOff, c, q, victim)
    requires c.FromFirst? ==> Takes(b.meta, victim, nowOff)
    ensures OnlyAged(b.meta, q.meta) && victim < |q.meta| && Takeable(q.meta[victim], nowOff)
    ensures Bag(b.first, b.main) == Bag(q.first, q.main) + multiset{victim} && Leaves(b.first, q.first)
    ensures b.first != [] || b.main != []
    ensures CostSum(b.first) <= cap && b.main != [] ==> q.first == b.first
  {
    hide Passed, FirstOfLeast, OnlyAged, Takeable, Bag, Due, Over, Cleaned, Sound, CostSum;
    SoundIsDistinct(b.first, b.main, |b.meta|);
    PartIsDistinct(b, c.left);
    var nodes, cleaned := b.main + b.first[..c.left], Cleaned(b.meta, b.first[..c.left]);
    CleanedIsAged(b.meta, b.first[..c.left]);
    MeetsContract(b, cap, nowOff, c, q, victim);
    BagIs(b.first, b.main);
    BagIs(q.first, q.main);
    FirstLeaves(b, cap, nowOff, c, q, victim);
    if c.FromFirst? {
      DueBound(b, cap, c.left);
      NextUntouched(b, c.left);
      TakesIs(b.meta, victim, nowOff);
      TakeableIs(q.meta[victim], nowOff);
    } else {
      LeastBound(nodes, cleaned, nowOff, c.v);
      PassedIsAged(nodes, cleaned, q.meta, nowOff, Rounds(cleaned[victim], nowOff), c.v);
      AgedFurther(b.meta, cleaned, q.meta);
      LeastIsTakeable(nodes, cleaned, q.meta, nowOff, c.v);
    }
    if CostSum(b.first) <= cap && b.main != [] {
      NotDue(b, cap);
    }
  }

  lemma LeastBound(nodes: seq<QNode>, meta: seq<Meta>, nowOff: nat, v: nat)
    requires FirstOfLeast(nodes, meta, nowOff, v)
    ensures InRange(nodes, |meta|) && v < |nodes|
  {
  }

  lemma DueBound(b: Queues, cap: int, i: nat)
    requires Due(b, cap, i)
    ensures i < |b.first|
  {
  }

  lemma NotDue(b: Queues, cap: int)
    requires CostSum(b.first) <= cap && b.main != []
    ensures !Due(b, cap, 0)
  {
    assert b.first[0..] == b.first;
  }

  lemma BagIs(first: seq<QNode>, main: seq<QNode>)
    ensures Bag(first, main) == multiset(Indices(first + main))
  {
    IndicesConcat(first, main);
  }

  lemma FirstLeaves(b: Queues, cap: int, nowOff: nat, c: Course, q: Queues, victim: nat)
    requires Evicts(b, cap, nowOff, c, q, victim)
    ensures Leaves(b.first, q.first)
  {
    hide Passed, FirstOfLeast, Cleaned;
  }
}
