/**
 S3-FIFO: newcomers sit in a small queue; eviction from it promotes touched items to main and remembers the keys of the
 rest, so that a key needed again soon starts in main.
 */
module S3FifoPolicies {
  import opened PolicyContract
  import opened QueuePasses
  import opened TwoQueuePolicies
  import opened EvictCourses
  import ClockPolicies
  import opened GhostTables

  /** The item at `x` would be evicted untouched: its key is to be remembered. */
  ghost predicate Unused(meta: seq<Meta>, x: nat, nowOff: nat) {
    x < |meta| && !meta[x].Spent(nowOff) && meta[x].chances == 0
  }

  lemma UnusedIs(meta: seq<Meta>, x: nat, nowOff: nat)
    requires x < |meta|
    ensures Unused(meta, x, nowOff) <==> !meta[x].Spent(nowOff) && meta[x].chances == 0
  {
  }

  /** The newcomers before `left` were neither spent nor untouched. */
  ghost predicate AllTouched(first: seq<QNode>, meta: seq<Meta>, left: nat, nowOff: nat) {
    left <= |first| && forall i: nat | i < left :: !Takes(meta, first[i].idx, nowOff)
  }

  lemma NoneTouched(first: seq<QNode>, meta: seq<Meta>, nowOff: nat)
    ensures AllTouched(first, meta, 0, nowOff)
  {
  }

  lemma OneMoreTouched(first: seq<QNode>, meta: seq<Meta>, left: nat, nowOff: nat)
    requires AllTouched(first, meta, left, nowOff) && left < |first| && !Takes(meta, first[left].idx, nowOff)
    ensures AllTouched(first, meta, left + 1, nowOff)
  {
  }

  /** The state before determines the course, and with it the victim and everything after. */
  lemma CourseIsDetermined(b: Queues, cap: int, nowOff: nat, c: Course, q: Queues, x: nat, d: Course, r: Queues, y: nat)
    requires Evicts(b, cap, nowOff, c, q, x) && Evicts(b, cap, nowOff, d, r, y)
    requires AllTouched(b.first, b.meta, c.left, nowOff) && AllTouched(b.first, b.meta, d.left, nowOff)
    requires (c.FromFirst? ==> Takes(b.meta, x, nowOff)) && (d.FromFirst? ==> Takes(b.meta, y, nowOff))
    ensures c == d && x == y && q.first == r.first && q.main == r.main
  {
    hide Takes, ClockPolicies.Passed, Cleaned, Over;
    NoEarlierEnd(b, cap, nowOff, c, q, x, d, r, y);
    NoEarlierEnd(b, cap, nowOff, d, r, y, c, q, x);
  }

  lemma NoEarlierEnd(b: Queues, cap: int, nowOff: nat, c: Course, q: Queues, x: nat, d: Course, r: Queues, y: nat)
    requires Evicts(b, cap, nowOff, c, q, x) && Evicts(b, cap, nowOff, d, r, y)
    requires AllTouched(b.first, b.meta, d.left, nowOff) && (c.FromFirst? ==> Takes(b.meta, x, nowOff))
    ensures c.left >= d.left && (c.left == d.left && c.FromMain? ==> d.FromMain?)
  {
    hide Takes, ClockPolicies.Passed, Cleaned, Over;
    assert c.FromMain? && (c.left < d.left || d.FromFirst?) ==>
             b.main + b.first[..c.left] != [] && (c.left < d.left ==> Due(b, cap, c.left));
  }

  class S3FifoPolicy {
    /** The small and main queues; the first queue is small. */
    const qs: TwoQueues
    /** The keys recently evicted from small. */
    const memory: GhostTable

    constructor (items: Items, shardCap: nat, rehash: bv64 -> nat, ghostSize: nat)
      ensures Valid() && qs.items == items && qs.first.contents == [] && qs.main.contents == []
      ensures if shardCap < 10 then qs.firstCap == 1 else 10 * qs.firstCap <= shardCap < 10 * (qs.firstCap + 1)
      ensures fresh(qs) && fresh(qs.first.repr) && fresh(qs.main.repr) && fresh(memory) && fresh(memory.slots)
    {
      var smallCap := shardCap / 10;
      if smallCap < 1 {
        smallCap := 1;
      }
      qs := new TwoQueues(items, smallCap);
      memory := new GhostTable(rehash, ghostSize);
    }

    ghost predicate Valid()
      reads this, qs, qs.first, qs.main, qs.first.repr, qs.main.repr, memory, memory.slots
    {
      && qs.Valid() && memory.Valid()
      && memory !in qs.first.repr && memory !in qs.main.repr
      && memory.slots !in qs.first.repr && memory.slots !in qs.main.repr && memory.slots as object != qs.items.meta
    }

    lemma ValidParts()
      ensures Valid() <==>
                && qs.Valid() && memory.Valid()
                && memory !in qs.first.repr && memory !in qs.main.repr
                && memory.slots !in qs.first.repr && memory.slots !in qs.main.repr
                && memory.slots as object != qs.items.meta
    {
    }

    /** A newcomer goes to small, or straight to main when its key is remembered; either way it is forgotten. */
    method Add(node: QNode)
      requires Valid() && node.idx < qs.items.meta.Length && node.idx !in qs.Queued()
      modifies qs.first.repr, qs.main.repr, qs`firstWeight, memory.slots
      ensures Valid() && fresh(qs.first.repr - old(qs.first.repr)) && fresh(qs.main.repr - old(qs.main.repr))
      ensures qs.Queued() == old(qs.Queued()) + multiset{node.idx}
      ensures var known := old(memory.Remembers(qs.items.meta[node.idx].keyHash));
              && qs.first.contents == (if known then old(qs.first.contents) else old(qs.first.contents) + [node])
              && qs.main.contents == (if known then old(qs.main.contents) + [node] else old(qs.main.contents))
      ensures !memory.Remembers(qs.items.meta[node.idx].keyHash)
      ensures memory.Now() == memory.AfterHit(old(memory.Now()), qs.items.meta[node.idx].keyHash)
    {
      hide *;
      ValidParts();
      qs.ValidParts();
      qs.ApartParts();
      var hit := memory.Hit(qs.items.meta[node.idx].keyHash);
      qs.ValidParts();
      if hit {
        qs.PushMain(node);
        ValidParts();
        return;
      }
      qs.PushFirst(node);
      ValidParts();
    }

    /** Processes the head of small: a dead, expired or untouched item is taken, the key of an untouched one is
        remembered, and a touched one is promoted to main with a clean counter. */
    method SmallOnce(nowOff: nat) returns (victim: nat, found: bool)
      requires Valid() && qs.first.contents != []
      modifies qs.first.repr, qs.main.repr, qs`firstWeight, qs.items.meta, memory`clock, memory.slots
      ensures Valid() && fresh(qs.first.repr - old(qs.first.repr)) && fresh(qs.main.repr - old(qs.main.repr))
      ensures OnlyAged(old(qs.items.meta[..]), qs.items.meta[..])
      ensures qs.first.contents == old(qs.first.contents)[1..]
      ensures found <==> Takes(old(qs.items.meta[..]), old(qs.first.contents)[0].idx, nowOff)
      ensures found ==>
                && victim == old(qs.first.contents)[0].idx < qs.items.meta.Length
                && Takeable(qs.items.meta[victim], nowOff)
                && qs.items.meta[..] == old(qs.items.meta[..])
                && qs.main.contents == old(qs.main.contents) && old(qs.Queued()) == qs.Queued() + multiset{victim}
      ensures Unused(old(qs.items.meta[..]), old(qs.first.contents)[0].idx, nowOff) && memory.slots.Length > 0 ==>
                memory.Remembers(qs.items.meta[victim].keyHash)
      ensures memory.Now() == if Unused(old(qs.items.meta[..]), old(qs.first.contents)[0].idx, nowOff)
                              then memory.AfterPush(old(memory.Now()), qs.items.meta[victim].keyHash)
                              else old(memory.Now())
      ensures !found ==>
                && qs.items.meta[..] == Cleared(old(qs.items.meta[..]), old(qs.first.contents)[0].idx)
                && qs.main.contents == old(qs.main.contents) + [old(qs.first.contents)[0]]
                && qs.Queued() == old(qs.Queued())
    {
      hide *;
      ghost var meta := qs.items.meta[..];
      ValidParts();
      qs.ValidParts();
      qs.ApartParts();
      NotAged(meta);
      var node := qs.TakeFirst();
      qs.ValidParts();
      qs.ApartParts();
      ValidParts();
      var m := qs.items.meta[node.idx];
      TakeableIs(m, nowOff);
      TakesIs(meta, node.idx, nowOff);
      UnusedIs(meta, node.idx, nowOff);
      if m.Spent(nowOff) {
        return node.idx, true;
      }
      if m.chances > 0 {
        AgedOne(meta, node.idx);
        ClearedIs(meta, node.idx);
        qs.items.meta[node.idx] := m.(chances := 0);
        ghost var meta' := qs.items.meta[..];
        assert meta' == meta[node.idx := m.(chances := 0)];
        qs.MetaWritten(meta');
        qs.PushMain(node);
        assert qs.items.meta[..] == meta';
        ValidParts();
        return 0, false;
      }
      memory.Push(m.keyHash);
      qs.ValidParts();
      ValidParts();
      return node.idx, true;
    }

    /** A GCLOCK step over main. */
    method MainOnce(nowOff: nat) returns (victim: nat, found: bool)
      requires Valid() && qs.main.contents != []
      modifies qs.main.repr, qs.items.meta
      ensures Valid() && fresh(qs.main.repr - old(qs.main.repr))
      ensures OnlyAged(old(qs.items.meta[..]), qs.items.meta[..])
      ensures found <==> Takes(old(qs.items.meta[..]), old(qs.main.contents)[0].idx, nowOff)
      ensures found ==>
                && victim == old(qs.main.contents)[0].idx < qs.items.meta.Length
                && Takeable(qs.items.meta[victim], nowOff) && qs.items.meta[..] == old(qs.items.meta[..])
                && qs.main.contents == old(qs.main.contents)[1..] && old(qs.Queued()) == qs.Queued() + multiset{victim}
      ensures !found ==>
                && qs.items.meta[..] == Revoked(old(qs.items.meta[..]), old(qs.main.contents)[0].idx)
                && qs.main.contents == old(qs.main.contents)[1..] + [old(qs.main.contents)[0]]
                && qs.Queued() == old(qs.Queued())
                && Chances(qs.main.contents, qs.items.meta[..]) < old(Chances(qs.main.contents, qs.items.meta[..]))
    {
      hide *;
      ValidParts();
      qs.ValidParts();
      qs.ApartParts();
      victim, found := qs.MainOnce(nowOff);
      ValidParts();
    }

    /** One step of an eviction: the head of small on its turn, else a step over main. */
    method Once(nowOff: nat, ghost b: Queues, ghost at: Progress)
      returns (victim: nat, found: bool, ghost c: Course, ghost at': Progress)
      requires Valid() && Midway(b, qs.firstCap, nowOff, at, qs.Now()) && AllTouched(b.first, b.meta, at.left, nowOff)
      requires qs.first.contents != [] || qs.main.contents != []
      modifies qs.first.repr, qs.main.repr, qs`firstWeight, qs.items.meta, memory`clock, memory.slots
      ensures Valid() && fresh(qs.first.repr - old(qs.first.repr)) && fresh(qs.main.repr - old(qs.main.repr))
      ensures found ==>
                && Evicts(b, qs.firstCap, nowOff, c, qs.Now(), victim) && AllTouched(b.first, b.meta, c.left, nowOff)
                && (c.FromFirst? ==> Takes(b.meta, victim, nowOff))
      ensures !found ==>
                Midway(b, qs.firstCap, nowOff, at', qs.Now()) && AllTouched(b.first, b.meta, at'.left, nowOff)
      ensures !found ==>
                || |qs.first.contents| < |old(qs.first.contents)|
                || (&& |qs.first.contents| == |old(qs.first.contents)|
                    && Chances(qs.main.contents, qs.items.meta[..]) < old(Chances(qs.main.contents, qs.items.meta[..])))
      ensures if found && c.FromFirst? && Unused(b.meta, victim, nowOff)
              then
                && memory.Now() == memory.AfterPush(old(memory.Now()), qs.items.meta[victim].keyHash)
                && (memory.slots.Length > 0 ==> memory.Remembers(qs.items.meta[victim].keyHash))
              else memory.Now() == old(memory.Now())
    {
      hide *;
      ghost var q, cap := qs.Now(), qs.firstCap;
      ValidParts();
      qs.ValidParts();
      qs.ApartParts();
      qs.NowIs();
      TurnIs(q, cap);
      var small := qs.first.Len();
      var main := qs.main.Len();
      c, at' := FromFirst(at.left), at;
      if (qs.firstWeight > qs.firstCap && small > 0) || main == 0 {
        FirstIsNext(b, cap, nowOff, at, q);
        FirstMoves(b, cap, nowOff, at, q);
        FirstEnds(b, cap, nowOff, at, q);
        UnusedIs(q.meta, q.first[0].idx, nowOff);
        UnusedIs(b.meta, q.first[0].idx, nowOff);
        TakesIs(q.meta, q.first[0].idx, nowOff);
        TakesIs(b.meta, q.first[0].idx, nowOff);
        victim, found := SmallOnce(nowOff);
        if !found {
          OneMoreTouched(b.first, b.meta, at.left, nowOff);
          at' := Progress(at.left + 1, 0, 0);
        }
      } else {
        victim, found := MainOnce(nowOff);
        if found {
          MainEnds(b, cap, nowOff, at, q);
          c := FromMain(at.left, at.o);
        } else {
          at' := MainMoves(b, cap, nowOff, at, q);
        }
      }
      qs.NowIs();
    }

    /** The victim from the state before: newcomers leave small from its head while it is over its budget; touched ones
        are promoted, the first spent or untouched one is the victim, and an untouched one's key is remembered. Once
        small fits, main gives up the first of its nodes with the fewest chances. Always ends, and reports false only
        when nothing is queued. */
    method Evict(nowOff: nat) returns (victim: nat, ok: bool, ghost c: Course)
      requires Valid()
      modifies qs.first.repr, qs.main.repr, qs`firstWeight, qs.items.meta, memory`clock, memory.slots
      ensures Valid() && fresh(qs.first.repr - old(qs.first.repr)) && fresh(qs.main.repr - old(qs.main.repr))
      ensures OnlyAged(old(qs.items.meta[..]), qs.items.meta[..])
      ensures ok <==> old(qs.first.contents) != [] || old(qs.main.contents) != []
      ensures ok ==>
                && victim < qs.items.meta.Length && Takeable(qs.items.meta[victim], nowOff)
                && old(qs.Queued()) == qs.Queued() + multiset{victim}
                && EvictsOne(old(qs.first.contents + qs.main.contents), qs.first.contents + qs.main.contents, victim)
      ensures !ok ==> qs.Queued() == old(qs.Queued())
      ensures Leaves(old(qs.first.contents), qs.first.contents)
      ensures old(qs.firstWeight) <= qs.firstCap && old(qs.main.contents) != [] ==>
              qs.first.contents == old(qs.first.contents)
      ensures ok ==>
                && Evicts(old(qs.Now()), qs.firstCap, nowOff, c, qs.Now(), victim)
                && AllTouched(old(qs.first.contents), old(qs.items.meta[..]), c.left, nowOff)
                && (c.FromFirst? ==> Takes(old(qs.items.meta[..]), victim, nowOff))
      ensures if ok && c.FromFirst? && Unused(old(qs.items.meta[..]), victim, nowOff)
              then
                && memory.Now() == memory.AfterPush(old(memory.Now()), qs.items.meta[victim].keyHash)
                && (memory.slots.Length > 0 ==> memory.Remembers(qs.items.meta[victim].keyHash))
              else memory.Now() == old(memory.Now())
    {
      hide *;
      ghost var b, cap := qs.Now(), qs.firstCap;
      ValidParts();
      qs.ValidParts();
      qs.ApartParts();
      qs.NowIs();
      qs.QueuedIs();
      NotAged(b.meta);
      NoneLeft(b.first);
      NoneTouched(b.first, b.meta, nowOff);
      MidwayStarts(b, cap, nowOff);
      ghost var at := Progress(0, 0, 0);
      c := FromFirst(0);
      while true
        invariant qs.items == old(qs.items)
        invariant Valid() && fresh(qs.first.repr - old(qs.first.repr)) && fresh(qs.main.repr - old(qs.main.repr))
        invariant Midway(b, cap, nowOff, at, qs.Now()) && AllTouched(b.first, b.meta, at.left, nowOff)
        invariant memory.Now() == old(memory.Now())
        decreases |qs.first.contents|, Chances(qs.main.contents, qs.items.meta[..])
      {
        ValidParts();
        qs.ValidParts();
        var small := qs.first.Len();
        var main := qs.main.Len();
        qs.NowIs();
        if small == 0 && main == 0 {
          MidwayNothing(b, cap, nowOff, at, qs.Now());
          qs.QueuedIs();
          return 0, false, c;
        }
        var found;
        victim, found, c, at := Once(nowOff, b, at);
        if found {
          EvictsMeans(b, cap, nowOff, c, qs.Now(), victim);
          MeetsContract(b, cap, nowOff, c, qs.Now(), victim);
          qs.NowIs();
          qs.QueuedIs();
          return victim, true, c;
        }
      }
    }

    method Sweep() returns (released: seq<nat>)
      requires Valid()
      modifies qs.first.repr, qs.main.repr, qs`firstWeight
      ensures Valid() && fresh(qs.first.repr - old(qs.first.repr)) && fresh(qs.main.repr - old(qs.main.repr))
      ensures Sweeps(old(qs.first.contents + qs.main.contents), qs.first.contents + qs.main.contents, released,
                     DeadSlots(qs.items.meta[..]))
    {
      hide *;
      ValidParts();
      qs.ValidParts();
      qs.ApartParts();
      released := qs.Sweep();
      ValidParts();
    }

    /** Follows the items to a new table; the policy goes on from there. */
    method Rebuild(remap: map<nat, nat>, next: Items)
      requires Valid() && Injects(qs.first.contents + qs.main.contents, remap, next.meta.Length)
      requires next.meta !in qs.first.repr && next.meta !in qs.main.repr && next.meta as object != memory.slots
      modifies qs.first.repr, qs.main.repr, qs`firstWeight, qs`items
      ensures Valid() && qs.items == next
      ensures fresh(qs.first.repr - old(qs.first.repr)) && fresh(qs.main.repr - old(qs.main.repr))
      ensures var before := old(qs.first.contents + qs.main.contents);
              Relinks(before, Indices(before), qs.first.contents + qs.main.contents, remap)
    {
      hide *;
      ValidParts();
      qs.ValidParts();
      qs.ApartParts();
      qs.Rebuild(remap, next);
      ValidParts();
    }
  }
}
