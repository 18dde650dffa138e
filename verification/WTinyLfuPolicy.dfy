/**
 W-TinyLFU: newcomers pass through a small window; an untouched one enters main only if the frequency sketch ranks it
 above main's next victim. Reuse observed during eviction scans feeds the sketch.
 */
module WTinyLfuPolicies {
  import opened PolicyContract
  import opened QueuePasses
  import opened TwoQueuePolicies
  import opened EvictCourses
  import opened FreqSketches

  /** The admission rule: an empty main or a tombstone at its head admits freely, otherwise the candidate's estimate
      must beat that of main's next victim. */
  ghost predicate Admits(main: seq<QNode>, meta: seq<Meta>, table: seq<bv64>, candidate: bv64)
    requires InRange(main, |meta|)
  {
    main == [] || var victim := meta[main[0].idx]; victim.dead || Least(table, candidate) > Least(table, victim.keyHash)
  }

  lemma AdmitsAny(main: seq<QNode>, meta: seq<Meta>, table: seq<bv64>, candidate: bv64)
    requires main == []
    ensures InRange(main, |meta|) && Admits(main, meta, table, candidate)
  {
  }

  lemma AdmitsIs(main: seq<QNode>, meta: seq<Meta>, table: seq<bv64>, candidate: bv64, victim: Meta)
    requires InRange(main, |meta|) && main != [] && victim == meta[main[0].idx]
    ensures Admits(main, meta, table, candidate) <==>
              victim.dead || Least(table, candidate) > Least(table, victim.keyHash)
  {
  }

  /** The newcomer at the head of the window is given up: dead, expired, or untouched and not admitted. */
  ghost predicate TurnsAway(window: seq<QNode>, main: seq<QNode>, meta: seq<Meta>, table: seq<bv64>, nowOff: nat) {
    && window != [] && InRange(window, |meta|) && InRange(main, |meta|)
    && var m := meta[window[0].idx];
       m.Spent(nowOff) || (m.chances == 0 && !Admits(main, meta, table, m.keyHash))
  }

  lemma TurnsAwayIs(window: seq<QNode>, main: seq<QNode>, meta: seq<Meta>, table: seq<bv64>, nowOff: nat)
    requires window != [] && InRange(window, |meta|) && InRange(main, |meta|)
    ensures window[0].idx < |meta|
    ensures var m := meta[window[0].idx];
            TurnsAway(window, main, meta, table, nowOff) <==>
              m.Spent(nowOff) || (m.chances == 0 && !Admits(main, meta, table, m.keyHash))
  {
  }

  /** Unless the sketch is disabled, it has recorded the key once more. */
  ghost predicate Heard(before: seq<Event>, after: seq<Event>, meta: seq<Meta>, x: nat, words: nat) {
    words > 0 && x < |meta| ==> before + [Seen(meta[x].keyHash)] <= after
  }

  lemma HeardIs(before: seq<Event>, after: seq<Event>, meta: seq<Meta>, x: nat, words: nat)
    requires x < |meta|
    requires words > 0 ==>
               || after == before + [Seen(meta[x].keyHash)]
               || after == before + [Seen(meta[x].keyHash), Aging]
    ensures Heard(before, after, meta, x, words)
  {
  }

  /** A newcomer with chances left, neither dead nor expired. */
  ghost predicate Touched(meta: seq<Meta>, x: nat, nowOff: nat) {
    x < |meta| && !meta[x].Spent(nowOff) && meta[x].chances > 0
  }

  lemma TouchedIs(meta: seq<Meta>, x: nat, nowOff: nat)
    requires x < |meta|
    ensures Touched(meta, x, nowOff) <==> !meta[x].Spent(nowOff) && meta[x].chances > 0
    ensures meta[x].chances == 0 ==> Cleared(meta, x) == meta
  {
  }

  lemma RevokedHash(meta: seq<Meta>, x: nat)
    requires x < |meta|
    ensures |Revoked(meta, x)| == |meta| && Revoked(meta, x)[x].keyHash == meta[x].keyHash
  {
  }

  /** The sketch once a newcomer was looked at: it hears of a touched one. */
  ghost function Learned(k: Counts, sampleSize: nat, meta: seq<Meta>, x: nat, nowOff: nat): Counts {
    if Touched(meta, x, nowOff) then Told(k, sampleSize, meta[x].keyHash) else k
  }

  lemma LearnedIs(k: Counts, sampleSize: nat, meta: seq<Meta>, x: nat, nowOff: nat)
    ensures Touched(meta, x, nowOff) ==>
              x < |meta| && Learned(k, sampleSize, meta, x, nowOff) == Told(k, sampleSize, meta[x].keyHash)
    ensures !Touched(meta, x, nowOff) ==> Learned(k, sampleSize, meta, x, nowOff) == k
  {
  }

  /** The sketch once the newcomers of `nodes` were promoted. */
  ghost function LearnedAll(k: Counts, sampleSize: nat, meta: seq<Meta>, nodes: seq<QNode>, nowOff: nat): Counts {
    if nodes == [] then k
    else
      Learned(LearnedAll(k, sampleSize, meta, nodes[..|nodes| - 1], nowOff), sampleSize, meta, nodes[|nodes| - 1].idx,
              nowOff)
  }

  /** The newcomer at `i` is turned away when its turn comes, given the sketch `k` the eviction starts with. */
  ghost predicate TurnedAway(b: Queues, k: Counts, sampleSize: nat, i: nat, nowOff: nat) {
    i < |b.first| &&
    TurnsAway(b.first[i..], b.main + b.first[..i], Cleaned(b.meta, b.first[..i]),
              LearnedAll(k, sampleSize, b.meta, b.first[..i], nowOff).table, nowOff)
  }

  /** None of the newcomers before `left` was: each was touched, or admitted by the filter. */
  ghost predicate AllLetIn(b: Queues, k: Counts, sampleSize: nat, left: nat, nowOff: nat) {
    left <= |b.first| && forall i: nat | i < left :: !TurnedAway(b, k, sampleSize, i, nowOff)
  }

  lemma NoneLetIn(b: Queues, k: Counts, sampleSize: nat, nowOff: nat)
    ensures AllLetIn(b, k, sampleSize, 0, nowOff) && LearnedAll(k, sampleSize, b.meta, b.first[..0], nowOff) == k
  {
  }

  lemma OneMoreLetIn(b: Queues, k: Counts, sampleSize: nat, left: nat, nowOff: nat)
    requires AllLetIn(b, k, sampleSize, left, nowOff) && left < |b.first|
    ensures !TurnedAway(b, k, sampleSize, left, nowOff) ==> AllLetIn(b, k, sampleSize, left + 1, nowOff)
    ensures LearnedAll(k, sampleSize, b.meta, b.first[..left + 1], nowOff)
         == Learned(LearnedAll(k, sampleSize, b.meta, b.first[..left], nowOff), sampleSize, b.meta, b.first[left].idx,
                    nowOff)
  {
    hide Learned, TurnedAway;
    assert b.first[..left + 1][..left] == b.first[..left];
  }

  /** On the window's turn the moment is the one `TurnedAway` speaks of. */
  lemma TurnComes(b: Queues, cap: int, nowOff: nat, at: Progress, q: Queues, k: Counts, sampleSize: nat)
    requires Midway(b, cap, nowOff, at, q) && FirstsTurn(q, cap)
    ensures q.first != [] && at.left < |b.first| && q.first[0] == b.first[at.left] && at.p == at.o == 0
    ensures TurnedAway(b, k, sampleSize, at.left, nowOff) <==>
              TurnsAway(q.first, q.main, q.meta, LearnedAll(k, sampleSize, b.meta, b.first[..at.left], nowOff).table,
                        nowOff)
    ensures forall j: Counts :: Learned(j, sampleSize, q.meta, q.first[0].idx, nowOff)
                             == Learned(j, sampleSize, b.meta, q.first[0].idx, nowOff)
  {
    hide TurnsAway, LearnedAll, Told;
    FirstIsNext(b, cap, nowOff, at, q);
    assert q.first == b.first[at.left..];
  }

  /** Only a spent or untouched newcomer is turned away. */
  lemma TurnedAwayIsTakeable(b: Queues, k: Counts, sampleSize: nat, left: nat, nowOff: nat)
    requires TurnedAway(b, k, sampleSize, left, nowOff)
    requires InRange(b.main + b.first, |b.meta|) && Distinct(b.main + b.first)
    ensures Takes(b.meta, b.first[left].idx, nowOff)
  {
    hide Admits, LearnedAll;
    NextUntouched(b, left);
    assert b.first[left..][0] == b.first[left];
  }

  lemma VictimIsTakeable(b: Queues, k: Counts, cap: int, nowOff: nat, c: Course, q: Queues, victim: nat,
                         sampleSize: nat)
    requires Sound(b.first, b.main, |b.meta|) && Evicts(b, cap, nowOff, c, q, victim)
    requires c.FromFirst? ==> TurnedAway(b, k, sampleSize, c.left, nowOff)
    ensures c.FromFirst? ==> Takes(b.meta, victim, nowOff)
  {
    hide Sound, TurnedAway, Cleaned;
    if c.FromFirst? {
      SoundIsDistinct(b.first, b.main, |b.meta|);
      TurnedAwayIsTakeable(b, k, sampleSize, c.left, nowOff);
    }
  }

  class WTinyLfuPolicy {
    /** The window and main queues; the first queue is the window. */
    const qs: TwoQueues
    const sketch: FreqSketch

    constructor (items: Items, shardCap: nat, sketchKeys: nat)
      ensures Valid() && qs.items == items && qs.first.contents == [] && qs.main.contents == [] && sketch.history == []
      ensures if shardCap < 100 then qs.firstCap == 1 else 100 * qs.firstCap <= shardCap < 100 * (qs.firstCap + 1)
      ensures fresh(qs) && fresh(qs.first.repr) && fresh(qs.main.repr) && fresh(sketch) && fresh(sketch.table)
    {
      var windowCap := shardCap / 100;
      if windowCap < 1 {
        windowCap := 1;
      }
      qs := new TwoQueues(items, windowCap);
      sketch := new FreqSketch(sketchKeys);
    }

    ghost predicate Valid()
      reads this, qs, qs.first, qs.main, qs.first.repr, qs.main.repr, sketch, sketch.table
    {
      && qs.Valid() && sketch.Valid()
      && sketch !in qs.first.repr && sketch !in qs.main.repr
      && sketch.table !in qs.first.repr && sketch.table !in qs.main.repr && sketch.table as object != qs.items.meta
    }

    lemma ValidParts()
      ensures Valid() <==>
                && qs.Valid() && sketch.Valid()
                && sketch !in qs.first.repr && sketch !in qs.main.repr
                && sketch.table !in qs.first.repr && sketch.table !in qs.main.repr
                && sketch.table as object != qs.items.meta
    {
    }

    /** A newcomer is counted and enters the window. */
    method Add(node: QNode)
      requires Valid() && node.idx < qs.items.meta.Length && node.idx !in qs.Queued()
      modifies qs.first.repr, qs`firstWeight, sketch, sketch.table
      ensures Valid() && fresh(qs.first.repr - old(qs.first.repr))
      ensures qs.Queued() == old(qs.Queued()) + multiset{node.idx}
      ensures qs.first.contents == old(qs.first.contents) + [node] && qs.main.contents == old(qs.main.contents)
      ensures Heard(old(sketch.history), sketch.history, qs.items.meta[..], node.idx, sketch.table.Length)
      ensures Counts(sketch.table[..], sketch.additions)
           == Told(Counts(old(sketch.table[..]), old(sketch.additions)), sketch.sampleSize,
                   qs.items.meta[node.idx].keyHash)
    {
      hide *;
      ghost var h := sketch.history;
      ValidParts();
      qs.ValidParts();
      qs.ApartParts();
      sketch.Increment(qs.items.meta[node.idx].keyHash);
      HeardIs(h, sketch.history, qs.items.meta[..], node.idx, sketch.table.Length);
      qs.ValidParts();
      qs.PushFirst(node);
      ValidParts();
    }

    method Admit(candidate: bv64) returns (admits: bool)
      requires Valid()
      ensures InRange(qs.main.contents, |qs.items.meta[..]|)
      ensures admits <==> Admits(qs.main.contents, qs.items.meta[..], sketch.table[..], candidate)
    {
      hide *;
      ValidParts();
      qs.ValidParts();
      var victim, ok := qs.main.Peek();
      if !ok {
        AdmitsAny(qs.main.contents, qs.items.meta[..], sketch.table[..], candidate);
        return true;
      }
      SoundMain(qs.first.contents, qs.main.contents, qs.items.meta.Length);
      InRangeAt(qs.main.contents, qs.items.meta.Length, 0);
      var m := qs.items.meta[victim.idx];
      AdmitsIs(qs.main.contents, qs.items.meta[..], sketch.table[..], candidate, m);
      if m.dead {
        return true;
      }
      var ours := sketch.Estimate(candidate);
      var theirs := sketch.Estimate(m.keyHash);
      return ours > theirs;
    }

    /** Processes the head of the window: a touched item is admitted to main with a clean counter, an untouched one must
        pass the filter. */
    method WindowOnce(nowOff: nat) returns (victim: nat, found: bool)
      requires Valid() && qs.first.contents != []
      modifies qs.first.repr, qs.main.repr, qs`firstWeight, qs.items.meta, sketch, sketch.table
      ensures Valid() && fresh(qs.first.repr - old(qs.first.repr)) && fresh(qs.main.repr - old(qs.main.repr))
      ensures OnlyAged(old(qs.items.meta[..]), qs.items.meta[..])
      ensures qs.first.contents == old(qs.first.contents)[1..]
      ensures found <==>
                TurnsAway(old(qs.first.contents), old(qs.main.contents), old(qs.items.meta[..]), old(sketch.table[..]),
                  nowOff)
      ensures Touched(old(qs.items.meta[..]), old(qs.first.contents)[0].idx, nowOff) ==>
                Heard(old(sketch.history), sketch.history, old(qs.items.meta[..]), old(qs.first.contents)[0].idx,
                      sketch.table.Length)
      ensures !Touched(old(qs.items.meta[..]), old(qs.first.contents)[0].idx, nowOff) ==>
                sketch.history == old(sketch.history) && sketch.table[..] == old(sketch.table[..])
      ensures Counts(sketch.table[..], sketch.additions)
           == Learned(Counts(old(sketch.table[..]), old(sketch.additions)), sketch.sampleSize, old(qs.items.meta[..]),
                      old(qs.first.contents)[0].idx, nowOff)
      ensures found ==>
                && victim == old(qs.first.contents)[0].idx < qs.items.meta.Length
                && Takeable(qs.items.meta[victim], nowOff)
                && qs.items.meta[..] == old(qs.items.meta[..])
                && qs.main.contents == old(qs.main.contents) && old(qs.Queued()) == qs.Queued() + multiset{victim}
      ensures !found ==>
                && qs.items.meta[..] == Cleared(old(qs.items.meta[..]), old(qs.first.contents)[0].idx)
                && qs.main.contents == old(qs.main.contents) + [old(qs.first.contents)[0]]
                && qs.Queued() == old(qs.Queued())
    {
      hide *;
      ghost var meta := qs.items.meta[..];
      ValidParts();
      qs.ValidParts();
      qs.ApartParts();
      NotAged(meta);
      SoundFirst(qs.first.contents, qs.main.contents, qs.items.meta.Length);
      SoundMain(qs.first.contents, qs.main.contents, qs.items.meta.Length);
      TurnsAwayIs(qs.first.contents, qs.main.contents, meta, sketch.table[..], nowOff);
      ghost var h := sketch.history;
      var node := qs.TakeFirst();
      qs.ValidParts();
      qs.ApartParts();
      ValidParts();
      var m := qs.items.meta[node.idx];
      TakeableIs(m, nowOff);
      TouchedIs(meta, node.idx, nowOff);
      LearnedIs(Counts(sketch.table[..], sketch.additions), sketch.sampleSize, meta, node.idx, nowOff);
      if m.Spent(nowOff) {
        return node.idx, true;
      }
      if m.chances > 0 {
        AgedOne(meta, node.idx);
        ClearedIs(meta, node.idx);
        sketch.Increment(m.keyHash);
        HeardIs(h, sketch.history, meta, node.idx, sketch.table.Length);
        qs.items.meta[node.idx] := m.(chances := 0);
        ghost var meta' := qs.items.meta[..];
        assert meta' == meta[node.idx := m.(chances := 0)];
        qs.ValidParts();
        qs.PushMain(node);
        assert qs.items.meta[..] == meta';
        ValidParts();
        return 0, false;
      }
      var admits := Admit(m.keyHash);
      if admits {
        qs.PushMain(node);
        assert qs.items.meta[..] == meta;
        ValidParts();
        return 0, false;
      }
      return node.idx, true;
    }

    /** A GCLOCK step over main; a node that survives was reused, and the sketch hears of it. */
    method MainOnce(nowOff: nat) returns (victim: nat, found: bool)
      requires Valid() && qs.main.contents != []
      modifies qs.main.repr, qs.items.meta, sketch, sketch.table
      ensures Valid() && fresh(qs.main.repr - old(qs.main.repr))
      ensures OnlyAged(old(qs.items.meta[..]), qs.items.meta[..])
      ensures found <==> Takes(old(qs.items.meta[..]), old(qs.main.contents)[0].idx, nowOff)
      ensures found ==>
                && victim == old(qs.main.contents)[0].idx < qs.items.meta.Length
                && Takeable(qs.items.meta[victim], nowOff)
                && qs.items.meta[..] == old(qs.items.meta[..]) && sketch.history == old(sketch.history)
                && qs.main.contents == old(qs.main.contents)[1..] && old(qs.Queued()) == qs.Queued() + multiset{victim}
      ensures !found ==>
                && qs.items.meta[..] == Revoked(old(qs.items.meta[..]), old(qs.main.contents)[0].idx)
                && Heard(old(sketch.history), sketch.history, old(qs.items.meta[..]), old(qs.main.contents)[0].idx,
                         sketch.table.Length)
                && qs.main.contents == old(qs.main.contents)[1..] + [old(qs.main.contents)[0]]
                && qs.Queued() == old(qs.Queued())
                && Chances(qs.main.contents, qs.items.meta[..]) < old(Chances(qs.main.contents, qs.items.meta[..]))
      ensures Counts(sketch.table[..], sketch.additions)
           == Learned(Counts(old(sketch.table[..]), old(sketch.additions)), sketch.sampleSize, old(qs.items.meta[..]),
                      old(qs.main.contents)[0].idx, nowOff)
    {
      hide *;
      ValidParts();
      qs.ValidParts();
      qs.ApartParts();
      SoundMain(qs.first.contents, qs.main.contents, qs.items.meta.Length);
      InRangeAt(qs.main.contents, qs.items.meta.Length, 0);
      ghost var meta, h := qs.items.meta[..], sketch.history;
      var head, some := qs.main.Peek();
      LearnedIs(Counts(sketch.table[..], sketch.additions), sketch.sampleSize, meta, head.idx, nowOff);
      TouchedIs(meta, head.idx, nowOff);
      TakesIs(meta, head.idx, nowOff);
      victim, found := qs.MainOnce(nowOff);
      ValidParts();
      if !found {
        RevokedHash(meta, head.idx);
        sketch.Increment(qs.items.meta[head.idx].keyHash);
        HeardIs(h, sketch.history, meta, head.idx, sketch.table.Length);
        qs.ValidParts();
        ValidParts();
      }
    }

    /** One step of an eviction: the head of the window on its turn, else a step over main. */
    method Once(nowOff: nat, ghost b: Queues, ghost k: Counts, ghost at: Progress)
      returns (victim: nat, found: bool, ghost c: Course, ghost at': Progress)
      requires Valid() && Midway(b, qs.firstCap, nowOff, at, qs.Now())
      requires AllLetIn(b, k, sketch.sampleSize, at.left, nowOff)
      requires at.p == at.o == 0 ==>
                 Counts(sketch.table[..], sketch.additions)
                   == LearnedAll(k, sketch.sampleSize, b.meta, if at.left <= |b.first| then b.first[..at.left] else [],
                                 nowOff)
      requires qs.first.contents != [] || qs.main.contents != []
      modifies qs.first.repr, qs.main.repr, qs`firstWeight, qs.items.meta, sketch, sketch.table
      ensures Valid() && fresh(qs.first.repr - old(qs.first.repr)) && fresh(qs.main.repr - old(qs.main.repr))
      ensures found ==>
                && Evicts(b, qs.firstCap, nowOff, c, qs.Now(), victim)
                && AllLetIn(b, k, sketch.sampleSize, c.left, nowOff)
                && (c.FromFirst? ==> TurnedAway(b, k, sketch.sampleSize, c.left, nowOff))
      ensures !found ==>
                && Midway(b, qs.firstCap, nowOff, at', qs.Now())
                && AllLetIn(b, k, sketch.sampleSize, at'.left, nowOff)
      ensures !found && at'.p == at'.o == 0 ==>
                Counts(sketch.table[..], sketch.additions)
                  == LearnedAll(k, sketch.sampleSize, b.meta, if at'.left <= |b.first| then b.first[..at'.left] else [],
                                nowOff)
      ensures !found ==>
                || |qs.first.contents| < |old(qs.first.contents)|
                || (&& |qs.first.contents| == |old(qs.first.contents)|
                    && Chances(qs.main.contents, qs.items.meta[..]) < old(Chances(qs.main.contents, qs.items.meta[..])))
    {
      hide *;
      ghost var q, cap, size := qs.Now(), qs.firstCap, sketch.sampleSize;
      ValidParts();
      qs.ValidParts();
      qs.ApartParts();
      qs.NowIs();
      TurnIs(q, cap);
      var window := qs.first.Len();
      var main := qs.main.Len();
      c, at' := FromFirst(at.left), at;
      if (qs.firstWeight > qs.firstCap && window > 0) || main == 0 {
        TurnComes(b, cap, nowOff, at, q, k, size);
        FirstMoves(b, cap, nowOff, at, q);
        FirstEnds(b, cap, nowOff, at, q);
        OneMoreLetIn(b, k, size, at.left, nowOff);
        victim, found := WindowOnce(nowOff);
        if !found {
          at' := Progress(at.left + 1, 0, 0);
        }
      } else {
        victim, found := MainOnce(nowOff);
        if found {
          MainEnds(b, cap, nowOff, at, q);
          c := FromMain(at.left, at.o);
        } else {
          at' := MainMoves(b, cap, nowOff, at, q);
        }
      }
      qs.NowIs();
    }

    /** The victim from the state before: newcomers leave the window from its head while it is over its budget; touched
        ones and those the filter admits go to main, the first one turned away is the victim. Once the window fits, main
        gives up the first of its nodes with the fewest chances. Always ends, and reports false only when nothing is
        queued. */
    method Evict(nowOff: nat) returns (victim: nat, ok: bool, ghost c: Course)
      requires Valid()
      modifies qs.first.repr, qs.main.repr, qs`firstWeight, qs.items.meta, sketch, sketch.table
      ensures Valid() && fresh(qs.first.repr - old(qs.first.repr)) && fresh(qs.main.repr - old(qs.main.repr))
      ensures OnlyAged(old(qs.items.meta[..]), qs.items.meta[..])
      ensures ok <==> old(qs.first.contents) != [] || old(qs.main.contents) != []
      ensures ok ==>
                && victim < qs.items.meta.Length && Takeable(qs.items.meta[victim], nowOff)
                && old(qs.Queued()) == qs.Queued() + multiset{victim}
                && EvictsOne(old(qs.first.contents + qs.main.contents), qs.first.contents + qs.main.contents, victim)
      ensures !ok ==> qs.Queued() == old(qs.Queued())
      ensures Leaves(old(qs.first.contents), qs.first.contents)
      ensures old(qs.firstWeight) <= qs.firstCap && old(qs.main.contents) != [] ==>
              qs.first.contents == old(qs.first.contents)
      ensures ok ==>
                var b, k := old(qs.Now()), Counts(old(sketch.table[..]), old(sketch.additions));
                && Evicts(b, qs.firstCap, nowOff, c, qs.Now(), victim)
                && AllLetIn(b, k, sketch.sampleSize, c.left, nowOff)
                && (c.FromFirst? ==> TurnedAway(b, k, sketch.sampleSize, c.left, nowOff))
    {
      hide *;
      ghost var b, k, cap, size := qs.Now(), Counts(sketch.table[..], sketch.additions), qs.firstCap, sketch.sampleSize;
      ValidParts();
      qs.ValidParts();
      qs.ApartParts();
      qs.NowIs();
      qs.QueuedIs();
      NotAged(b.meta);
      NoneLeft(b.first);
      NoneLetIn(b, k, size, nowOff);
      MidwayStarts(b, cap, nowOff);
      ghost var at := Progress(0, 0, 0);
      c := FromFirst(0);
      while true
        invariant qs.items == old(qs.items)
        invariant Valid() && fresh(qs.first.repr - old(qs.first.repr)) && fresh(qs.main.repr - old(qs.main.repr))
        invariant Midway(b, cap, nowOff, at, qs.Now()) && AllLetIn(b, k, size, at.left, nowOff)
        invariant at.p == at.o == 0 ==>
                    Counts(sketch.table[..], sketch.additions)
                      == LearnedAll(k, size, b.meta, if at.left <= |b.first| then b.first[..at.left] else [], nowOff)
        decreases |qs.first.contents|, Chances(qs.main.contents, qs.items.meta[..])
      {
        ValidParts();
        qs.ValidParts();
        var window := qs.first.Len();
        var main := qs.main.Len();
        qs.NowIs();
        if window == 0 && main == 0 {
          MidwayNothing(b, cap, nowOff, at, qs.Now());
          qs.QueuedIs();
          return 0, false, c;
        }
        var found;
        victim, found, c, at := Once(nowOff, b, k, at);
        if found {
          VictimIsTakeable(b, k, cap, nowOff, c, qs.Now(), victim, size);
          EvictsMeans(b, cap, nowOff, c, qs.Now(), victim);
          MeetsContract(b, cap, nowOff, c, qs.Now(), victim);
          qs.NowIs();
          qs.QueuedIs();
          return victim, true, c;
        }
      }
    }

    method Sweep() returns (released: seq<nat>)
      requires Valid()
      modifies qs.first.repr, qs.main.repr, qs`firstWeight
      ensures Valid() && fresh(qs.first.repr - old(qs.first.repr)) && fresh(qs.main.repr - old(qs.main.repr))
      ensures Sweeps(old(qs.first.contents + qs.main.contents), qs.first.contents + qs.main.contents, released,
                     DeadSlots(qs.items.meta[..]))
    {
      hide *;
      ValidParts();
      qs.ValidParts();
      qs.ApartParts();
      released := qs.Sweep();
      ValidParts();
    }

    /** Follows the items to a new table; the policy goes on from there. */
    method Rebuild(remap: map<nat, nat>, next: Items)
      requires Valid() && Injects(qs.first.contents + qs.main.contents, remap, next.meta.Length)
      requires next.meta !in qs.first.repr && next.meta !in qs.main.repr && next.meta as object != sketch.table
      modifies qs.first.repr, qs.main.repr, qs`firstWeight, qs`items
      ensures Valid() && qs.items == next
      ensures fresh(qs.first.repr - old(qs.first.repr)) && fresh(qs.main.repr - old(qs.main.repr))
      ensures var before := old(qs.first.contents + qs.main.contents);
              Relinks(before, Indices(before), qs.first.contents + qs.main.contents, remap)
    {
      hide *;
      ValidParts();
      qs.ValidParts();
      qs.ApartParts();
      qs.Rebuild(remap, next);
      ValidParts();
    }
  }
}
