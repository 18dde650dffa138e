/** Whole runs of a shard against a plain map and the plain history of its writes. */
module ShardRuns {
  import opened Options
  import opened SlotTable
  import opened ShardLedger
  import opened ShardState
  import opened ShardEffects
  import opened Shards
  import ExpiryScale

  datatype Op<K, V> =
    | SetOp(key: K, value: V, expireOff: nat, nowOff: nat)
    | GetOp(key: K, nowOff: nat, refresh: Option<nat>)
    | DeleteOp(key: K)

  /** One operation of a run, what it answered and what it reported. */
  datatype Event<K, V> = Event(op: Op<K, V>, answer: Option<V>, reports: seq<Deletion<K, V>>)

  // ---- The plain map ----

  /** The report of a key's removal, if the map holds it. */
  ghost function Reported<K, V>(m: map<K, Entry<V>>, key: K, cause: Cause): seq<Deletion<K, V>> {
    if key in m then [Deletion(key, m[key].value, cause)] else []
  }

  ghost predicate Gone<K, V>(m: map<K, Entry<V>>, key: K, nowOff: nat) {
    key !in m || ExpiryScale.Expired(m[key].expireOff, nowOff)
  }

  /** What a write reported beyond the value it replaced. */
  ghost function Tail<K, V>(m: map<K, Entry<V>>, e: Event<K, V>): seq<Deletion<K, V>> {
    if |e.reports| >= |Reported(m, e.op.key, Replacement)| then e.reports[|Reported(m, e.op.key, Replacement)|..]
      else []
  }

  /** What the plain map allows of an event: answers and reports are determined, except which items a write evicts. It
      evicts until the rest fits and no further. */
  ghost predicate Allowed<K, V>(m: map<K, Entry<V>>, e: Event<K, V>, cost: (K, V) -> nat, cap: nat) {
    match e.op
    case SetOp(key, value, off, nowOff) =>
      && e.answer == None
      && if cost(key, value) > cap then e.reports == Reported(m, key, Overflow)
         else
           && e.reports == Reported(m, key, Replacement) + Tail(m, e)
           && var target, tail := Stored(m, key, value, off), Tail(m, e);
              && Departures(target, tail, nowOff)
              && Needed(target, tail, cost, cap) && Total(target - KeysOf(tail), cost) <= cap
    case GetOp(key, nowOff, _) =>
      if Gone(m, key, nowOff) then e.answer == None && e.reports == Reported(m, key, Expiration)
      else e.answer == Some(m[key].value) && e.reports == []
    case DeleteOp(key) => e.answer == None && e.reports == Reported(m, key, Invalidation)
  }

  /** What the event makes of the plain map. */
  ghost function Applied<K, V>(m: map<K, Entry<V>>, e: Event<K, V>, cost: (K, V) -> nat, cap: nat): map<K, Entry<V>> {
    match e.op
    case SetOp(key, value, off, _) =>
      if cost(key, value) > cap then m - {key} else Stored(m, key, value, off) - KeysOf(Tail(m, e))
    case GetOp(key, nowOff, refresh) =>
      if Gone(m, key, nowOff) then m - {key}
      else if refresh.Some? then m[key := m[key].(expireOff := refresh.value)] else m
    case DeleteOp(key) => m - {key}
  }

  ghost function Replay<K, V>(trace: seq<Event<K, V>>, cost: (K, V) -> nat, cap: nat): map<K, Entry<V>> {
    if trace == [] then map[]
    else Applied(Replay(trace[..|trace| - 1], cost, cap), trace[|trace| - 1], cost, cap)
  }

  ghost predicate Legal<K, V>(trace: seq<Event<K, V>>, cost: (K, V) -> nat, cap: nat) {
    trace == [] ||
    var rest := trace[..|trace| - 1];
    Legal(rest, cost, cap) && Allowed(Replay(rest, cost, cap), trace[|trace| - 1], cost, cap)
  }

  ghost function AllReports<K, V>(trace: seq<Event<K, V>>): seq<Deletion<K, V>> {
    if trace == [] then [] else AllReports(trace[..|trace| - 1]) + trace[|trace| - 1].reports
  }

  /** Every write the shard took, in order. */
  function Writes<K, V>(ops: seq<Op<K, V>>, cost: (K, V) -> nat, cap: nat): seq<(K, V)> {
    if ops == [] then []
    else
      var rest, op := Writes(ops[..|ops| - 1], cost, cap), ops[|ops| - 1];
      if op.SetOp? && cost(op.key, op.value) <= cap then rest + [(op.key, op.value)] else rest
  }

  // ---- The history of one key ----

  /** The value last written to `key` and neither deleted nor refused since. */
  ghost function LastWritten<K, V>(trace: seq<Event<K, V>>, key: K, cost: (K, V) -> nat, cap: nat): Option<V> {
    if trace == [] then None
    else
      var before, op := LastWritten(trace[..|trace| - 1], key, cost, cap), trace[|trace| - 1].op;
      if op.key != key then before
      else match op
        case SetOp(_, value, _, _) => if cost(key, value) <= cap then Some(value) else None
        case DeleteOp(_) => None
        case GetOp(_, _, _) => before
  }

  ghost predicate Loses<K, V>(e: Event<K, V>, key: K, value: V) {
    Deletion(key, value, Expiration) in e.reports || Deletion(key, value, Eviction) in e.reports
  }

  /** The value was reported expired or evicted, by the key's last write or later. */
  ghost predicate LostSince<K, V>(trace: seq<Event<K, V>>, key: K, value: V) {
    trace != [] &&
    var last := trace[|trace| - 1];
    || Loses(last, key, value)
    || ((last.op.key != key || last.op.GetOp?) && LostSince(trace[..|trace| - 1], key, value))
  }

  /** Every run: the plain map holds a key exactly if its last write was not reported lost since, and then it holds that
      write's value. */
  lemma {:induction false} HeldExactly<K, V>(trace: seq<Event<K, V>>, key: K, cost: (K, V) -> nat, cap: nat)
    requires Legal(trace, cost, cap)
    ensures var m, last := Replay(trace, cost, cap), LastWritten(trace, key, cost, cap);
            && (key in m <==> last.Some? && !LostSince(trace, key, last.value))
            && (key in m ==> m[key].value == last.value)
  {
    hide Allowed, Applied, Loses, Spared;
    if trace != [] {
      var rest, e := trace[..|trace| - 1], trace[|trace| - 1];
      HeldExactly(rest, key, cost, cap);
      var m, last := Replay(rest, cost, cap), LastWritten(trace, key, cost, cap);
      if e.op.SetOp? && cost(e.op.key, e.op.value) <= cap {
        WriteKeeps(m, e, key, cost, cap);
      } else {
        OtherKeeps(m, e, key, cost, cap);
      }
      if last.Some? && Spared(e, key) {
        SparedLosesNothing(e, key, last.value);
      }
    }
  }

  /** What an event does to a key it is not a write or delete of. */
  ghost predicate Bystands<K, V>(m: map<K, Entry<V>>, m': map<K, Entry<V>>, e: Event<K, V>, key: K) {
    && (key in m' ==> key in m && m'[key].value == m[key].value)
    && (key in m && key !in m' ==> Loses(e, key, m[key].value))
  }

  /** What a write the shard takes does to its key. */
  ghost predicate Takes<K, V>(m': map<K, Entry<V>>, e: Event<K, V>, key: K)
    requires e.op.SetOp?
  {
    && (key in m' ==> m'[key].value == e.op.value)
    && (key !in m' ==> Loses(e, key, e.op.value))
  }

  /** No report of this event says the key was lost. */
  ghost predicate Spared<K, V>(e: Event<K, V>, key: K) {
    forall i | 0 <= i < |e.reports| && e.reports[i].key == key :: e.reports[i].cause !in {Expiration, Eviction}
  }

  lemma SparedLosesNothing<K, V>(e: Event<K, V>, key: K, value: V)
    requires Spared(e, key)
    ensures !Loses(e, key, value)
  {
  }

  lemma TailKeys<K, V>(target: map<K, Entry<V>>, tail: seq<Deletion<K, V>>, key: K, nowOff: nat)
    requires Departures(target, tail, nowOff)
    ensures key in KeysOf(tail) <==> exists i :: 0 <= i < |tail| && tail[i].key == key
    ensures key in KeysOf(tail) ==>
              && key in target
              && (Deletion(key, target[key].value, Expiration) in tail
                 || Deletion(key, target[key].value, Eviction) in tail)
  {
    if key in KeysOf(tail) {
      var i :| 0 <= i < |tail| && tail[i].key == key;
      assert tail[i] in tail;
    }
  }

  lemma SparedByTail<K, V>(e: Event<K, V>, replaced: seq<Deletion<K, V>>, tail: seq<Deletion<K, V>>, key: K)
    requires e.reports == replaced + tail && (forall i | 0 <= i < |replaced| :: replaced[i].cause == Replacement)
    ensures !(exists i :: 0 <= i < |tail| && tail[i].key == key) ==> Spared(e, key)
    ensures forall d | d in tail :: d in e.reports
  {
    forall d | d in tail ensures d in e.reports {
      var i :| 0 <= i < |tail| && tail[i] == d;
      assert e.reports[|replaced| + i] == d;
    }
    forall i | 0 <= i < |e.reports| && e.reports[i].key == key
      ensures i < |replaced| || exists j :: 0 <= j < |tail| && tail[j].key == key
    {
      assert i >= |replaced| ==> tail[i - |replaced|] == e.reports[i];
    }
  }

  lemma WriteIs<K, V>(m: map<K, Entry<V>>, e: Event<K, V>, cost: (K, V) -> nat, cap: nat)
    requires Allowed(m, e, cost, cap) && e.op.SetOp? && cost(e.op.key, e.op.value) <= cap
    ensures e.reports == Reported(m, e.op.key, Replacement) + Tail(m, e)
    ensures Departures(Stored(m, e.op.key, e.op.value, e.op.expireOff), Tail(m, e), e.op.nowOff)
    ensures Applied(m, e, cost, cap) == Stored(m, e.op.key, e.op.value, e.op.expireOff) - KeysOf(Tail(m, e))
    ensures Needed(Stored(m, e.op.key, e.op.value, e.op.expireOff), Tail(m, e), cost, cap)
    ensures Total(Applied(m, e, cost, cap), cost) <= cap
  {
    hide Departures, KeysOf, Stored, Needed, Total;
  }

  lemma WriteKeeps<K, V>(m: map<K, Entry<V>>, e: Event<K, V>, key: K, cost: (K, V) -> nat, cap: nat)
    requires Allowed(m, e, cost, cap) && e.op.SetOp? && cost(e.op.key, e.op.value) <= cap
    ensures var m' := Applied(m, e, cost, cap);
            && (key in m' || (key !in m && e.op.key != key) ==> Spared(e, key))
            && (if e.op.key == key then Takes(m', e, key) else Bystands(m, m', e, key))
  {
    hide Departures, KeysOf, Allowed, Applied, Spared, Tail;
    WriteIs(m, e, cost, cap);
    TailKeys(Stored(m, e.op.key, e.op.value, e.op.expireOff), Tail(m, e), key, e.op.nowOff);
    SparedByTail(e, Reported(m, e.op.key, Replacement), Tail(m, e), key);
  }

  lemma OtherKeeps<K, V>(m: map<K, Entry<V>>, e: Event<K, V>, key: K, cost: (K, V) -> nat, cap: nat)
    requires Allowed(m, e, cost, cap) && !(e.op.SetOp? && cost(e.op.key, e.op.value) <= cap)
    ensures var m' := Applied(m, e, cost, cap);
            && (key in m' || key !in m ==> Spared(e, key))
            && (e.op.key == key && !e.op.GetOp? ==> key !in m')
            && (e.op.key != key || e.op.GetOp? ==> Bystands(m, m', e, key))
  {
    if key in m && e.op.key == key {
      assert Reported(m, key, Expiration)[0] == Deletion(key, m[key].value, Expiration);
    }
  }

  /** A read in a run: an answer is the value last written, and no answer means there is none or it was reported lost,
      at the latest by this very read. */
  lemma ReadAnswers<K, V>(trace: seq<Event<K, V>>, i: nat, cost: (K, V) -> nat, cap: nat)
    requires Legal(trace, cost, cap) && i < |trace| && trace[i].op.GetOp?
    ensures var key, last := trace[i].op.key, LastWritten(trace[..i], trace[i].op.key, cost, cap);
            && (trace[i].answer.Some? ==> trace[i].answer == last && !LostSince(trace[..i + 1], key, last.value))
            && (trace[i].answer.None? ==> last.None? || LostSince(trace[..i + 1], key, last.value))
  {
    LegalPrefix(trace, i, cost, cap);
    LegalPrefix(trace, i + 1, cost, cap);
    var key := trace[i].op.key;
    HeldExactly(trace[..i], key, cost, cap);
    HeldExactly(trace[..i + 1], key, cost, cap);
    assert trace[..i + 1][..i] == trace[..i] && trace[..i + 1][i] == trace[i];
  }

  // ---- Deadlines ----

  /** The key's last write was not reported lost. */
  ghost predicate Holds<K, V>(trace: seq<Event<K, V>>, key: K, cost: (K, V) -> nat, cap: nat) {
    var last := LastWritten(trace, key, cost, cap);
    last.Some? && !LostSince(trace, key, last.value)
  }

  /** The deadline the key got last: from a write or a refresh, a write without one keeping that of the value it
      replaces; 0 is none. */
  ghost function LastDeadline<K, V>(trace: seq<Event<K, V>>, key: K, cost: (K, V) -> nat, cap: nat): nat {
    if trace == [] then 0
    else
      var rest, e := trace[..|trace| - 1], trace[|trace| - 1];
      var before := LastDeadline(rest, key, cost, cap);
      if e.op.key != key then before
      else match e.op
        case SetOp(_, _, off, _) => if off == 0 && Holds(rest, key, cost, cap) then before else off
        case GetOp(_, _, refresh) => if e.answer.Some? && refresh.Some? then refresh.value else before
        case DeleteOp(_) => 0
  }

  /** Every run: a held key's deadline is the last it got. */
  lemma {:induction false} DeadlineExactly<K, V>(trace: seq<Event<K, V>>, key: K, cost: (K, V) -> nat, cap: nat)
    requires Legal(trace, cost, cap)
    ensures var m := Replay(trace, cost, cap);
            key in m ==> m[key].expireOff == LastDeadline(trace, key, cost, cap)
  {
    hide Allowed, Applied, Holds, LastWritten, LostSince;
    if trace != [] {
      var rest, e := trace[..|trace| - 1], trace[|trace| - 1];
      DeadlineExactly(rest, key, cost, cap);
      HeldIs(rest, key, cost, cap);
      DeadlineAfter(Replay(rest, cost, cap), e, key, cost, cap);
    }
  }

  lemma HeldIs<K, V>(trace: seq<Event<K, V>>, key: K, cost: (K, V) -> nat, cap: nat)
    requires Legal(trace, cost, cap)
    ensures Holds(trace, key, cost, cap) <==> key in Replay(trace, cost, cap)
    ensures key in Replay(trace, cost, cap) ==>
              LastWritten(trace, key, cost, cap) == Some(Replay(trace, cost, cap)[key].value)
  {
    HeldExactly(trace, key, cost, cap);
  }

  /** What an event does to the deadline of a key that is held after it. */
  lemma DeadlineAfter<K, V>(m: map<K, Entry<V>>, e: Event<K, V>, key: K, cost: (K, V) -> nat, cap: nat)
    requires Allowed(m, e, cost, cap)
    ensures var m' := Applied(m, e, cost, cap);
            key in m' ==>
              && (e.op.key != key ==> key in m && m'[key].expireOff == m[key].expireOff)
              && !(e.op.key == key && e.op.DeleteOp?)
              && (e.op.key == key && e.op.SetOp? ==>
                    m'[key].expireOff == if e.op.expireOff == 0 && key in m then m[key].expireOff else e.op.expireOff)
              && (e.op.key == key && e.op.GetOp? ==>
                    && key in m && e.answer.Some?
                    && m'[key].expireOff == if e.op.refresh.Some? then e.op.refresh.value else m[key].expireOff)
  {
    hide Departures, KeysOf, Needed, Total, Tail;
  }

  /** A read in a run, from the history alone: it answers the value last written exactly if that is held and its
      deadline has not passed. */
  lemma ReadExactly<K, V>(trace: seq<Event<K, V>>, i: nat, cost: (K, V) -> nat, cap: nat)
    requires Legal(trace, cost, cap) && i < |trace| && trace[i].op.GetOp?
    ensures var key, past := trace[i].op.key, trace[..i];
            trace[i].answer
              == if Holds(past, key, cost, cap)
                    && !ExpiryScale.Expired(LastDeadline(past, key, cost, cap), trace[i].op.nowOff)
                 then LastWritten(past, key, cost, cap) else None
  {
    hide Holds, LastWritten, LastDeadline, Replay, Legal;
    LegalStep(trace, i, cost, cap);
    HeldIs(trace[..i], trace[i].op.key, cost, cap);
    DeadlineExactly(trace[..i], trace[i].op.key, cost, cap);
  }

  function ClockOf<K, V>(op: Op<K, V>): nat { if op.DeleteOp? then 0 else op.nowOff }

  /** A loss in a run: it is an expiration exactly if the key's deadline had passed at the clock of the operation that
      reports it. */
  lemma LossExactly<K, V>(trace: seq<Event<K, V>>, i: nat, d: Deletion<K, V>, cost: (K, V) -> nat, cap: nat)
    requires Legal(trace, cost, cap) && i < |trace| && d in trace[i].reports && d.cause in {Expiration, Eviction}
    ensures !trace[i].op.DeleteOp?
    ensures d.cause == Expiration <==>
              ExpiryScale.Expired(LastDeadline(trace[..i + 1], d.key, cost, cap), ClockOf(trace[i].op))
  {
    hide Holds, LastWritten, LastDeadline, Replay, Legal;
    LegalStep(trace, i, cost, cap);
    HeldIs(trace[..i], d.key, cost, cap);
    DeadlineExactly(trace[..i], d.key, cost, cap);
    DeadlineStep(trace, i, d.key, cost, cap);
    LossIs(Replay(trace[..i], cost, cap), trace[i], d, cost, cap);
  }

  lemma LossIs<K, V>(m: map<K, Entry<V>>, e: Event<K, V>, d: Deletion<K, V>, cost: (K, V) -> nat, cap: nat)
    requires Allowed(m, e, cost, cap) && d in e.reports && d.cause in {Expiration, Eviction}
    ensures !e.op.DeleteOp? && (e.op.GetOp? ==> d.key == e.op.key && e.answer.None?)
    ensures e.op.GetOp? || e.op.key != d.key ==>
              d.key in m && (d.cause == Expiration <==> ExpiryScale.Expired(m[d.key].expireOff, ClockOf(e.op)))
    ensures e.op.SetOp? && e.op.key == d.key ==>
              var off := if e.op.expireOff == 0 && d.key in m then m[d.key].expireOff else e.op.expireOff;
              d.cause == Expiration <==> ExpiryScale.Expired(off, e.op.nowOff)
  {
    hide KeysOf, Needed, Total, ExpiryScale.Expired;
    if e.op.SetOp? && cost(e.op.key, e.op.value) <= cap {
      WriteIs(m, e, cost, cap);
      var replaced, tail := Reported(m, e.op.key, Replacement), Tail(m, e);
      assert d in replaced + tail;
    }
  }

  lemma LegalStep<K, V>(trace: seq<Event<K, V>>, i: nat, cost: (K, V) -> nat, cap: nat)
    requires Legal(trace, cost, cap) && i < |trace|
    ensures Legal(trace[..i], cost, cap) && Allowed(Replay(trace[..i], cost, cap), trace[i], cost, cap)
  {
    hide Allowed, Replay;
    LegalPrefix(trace, i, cost, cap);
    LegalPrefix(trace, i + 1, cost, cap);
    assert trace[..i + 1][..i] == trace[..i] && trace[..i + 1][i] == trace[i];
  }

  lemma DeadlineStep<K, V>(trace: seq<Event<K, V>>, i: nat, key: K, cost: (K, V) -> nat, cap: nat)
    requires i < |trace|
    ensures var past, e := trace[..i], trace[i];
            LastDeadline(trace[..i + 1], key, cost, cap)
              == if e.op.key != key then LastDeadline(past, key, cost, cap)
                 else match e.op
                   case SetOp(_, _, off, _) =>
                     if off == 0 && Holds(past, key, cost, cap) then LastDeadline(past, key, cost, cap) else off
                   case GetOp(_, _, refresh) =>
                     if e.answer.Some? && refresh.Some? then refresh.value else LastDeadline(past, key, cost, cap)
                   case DeleteOp(_) => 0
  {
    hide Holds;
    assert trace[..i + 1][..i] == trace[..i] && trace[..i + 1][i] == trace[i];
  }

  /** The operation gives the key no deadline. */
  predicate Timeless<K(==), V>(op: Op<K, V>, key: K) {
    op.key == key ==>
      && (op.SetOp? ==> op.expireOff == 0)
      && (op.GetOp? && op.refresh.Some? ==> op.refresh.value == 0)
  }

  lemma {:induction false} NoDeadline<K, V>(trace: seq<Event<K, V>>, key: K, cost: (K, V) -> nat, cap: nat)
    requires forall i | 0 <= i < |trace| :: Timeless(trace[i].op, key)
    ensures LastDeadline(trace, key, cost, cap) == 0
  {
    hide Holds;
    if trace != [] {
      NoDeadline(trace[..|trace| - 1], key, cost, cap);
    }
  }

  /** A key never given a deadline never expires, at any clock: no report says so, and every read while it is held
      answers its value. */
  lemma NeverExpires<K, V>(trace: seq<Event<K, V>>, key: K, cost: (K, V) -> nat, cap: nat)
    requires Legal(trace, cost, cap) && forall i | 0 <= i < |trace| :: Timeless(trace[i].op, key)
    ensures forall i, d | 0 <= i < |trace| && d in trace[i].reports && d.key == key :: d.cause != Expiration
    ensures forall i | 0 <= i < |trace| && trace[i].op.GetOp? && trace[i].op.key == key ::
              trace[i].answer
                == if Holds(trace[..i], key, cost, cap) then LastWritten(trace[..i], key, cost, cap) else None
  {
    hide Holds, LastWritten, LastDeadline, Legal, Timeless, ExpiryScale.Expired;
    forall i, d | 0 <= i < |trace| && d in trace[i].reports && d.key == key ensures d.cause != Expiration {
      NoDeadline(trace[..i + 1], key, cost, cap);
      if d.cause == Expiration {
        LossExactly(trace, i, d, cost, cap);
      }
    }
    forall i | 0 <= i < |trace| && trace[i].op.GetOp? && trace[i].op.key == key
      ensures trace[i].answer
                == if Holds(trace[..i], key, cost, cap) then LastWritten(trace[..i], key, cost, cap) else None
    {
      NoDeadline(trace[..i], key, cost, cap);
      ReadExactly(trace, i, cost, cap);
    }
  }

  // ---- How much a run evicts ----

  /** Every run keeps within the capacity. */
  lemma {:induction false} RunFits<K, V>(trace: seq<Event<K, V>>, cost: (K, V) -> nat, cap: nat)
    requires Legal(trace, cost, cap)
    ensures Total(Replay(trace, cost, cap), cost) <= cap
  {
    hide Allowed, Applied, Total;
    if trace == [] {
      TotalOfNothing(cost);
    } else {
      var rest, e := trace[..|trace| - 1], trace[|trace| - 1];
      RunFits(rest, cost, cap);
      if e.op.SetOp? && cost(e.op.key, e.op.value) <= cap {
        WriteIs(Replay(rest, cost, cap), e, cost, cap);
      } else {
        OtherFits(Replay(rest, cost, cap), e, cost, cap);
      }
    }
  }

  lemma TotalOfNothing<K, V>(cost: (K, V) -> nat)
    ensures Total(map[], cost) == 0
  {
  }

  lemma OtherFits<K, V>(m: map<K, Entry<V>>, e: Event<K, V>, cost: (K, V) -> nat, cap: nat)
    requires Total(m, cost) <= cap && !(e.op.SetOp? && cost(e.op.key, e.op.value) <= cap)
    ensures Total(Applied(m, e, cost, cap), cost) <= cap
  {
    hide Total, ExpiryScale.Expired;
    var key := e.op.key;
    if key in m {
      TotalWithout(m, cost, key);
      if e.op.GetOp? && e.op.refresh.Some? {
        var m' := m[key := m[key].(expireOff := e.op.refresh.value)];
        TotalWithout(m', cost, key);
        assert m' - {key} == m - {key};
      }
    } else {
      assert m - {key} == m;
    }
  }

  /** A write evicts nothing it need not: all but the last of what it evicts would not have been enough, and nothing is
      evicted if everything fits. */
  lemma EvictsNoMore<K, V>(trace: seq<Event<K, V>>, i: nat, cost: (K, V) -> nat, cap: nat)
    requires Legal(trace, cost, cap) && i < |trace| && trace[i].op.SetOp?
    requires cost(trace[i].op.key, trace[i].op.value) <= cap
    ensures var m, op := Replay(trace[..i], cost, cap), trace[i].op;
            var target, tail := Stored(m, op.key, op.value, op.expireOff), Tail(m, trace[i]);
            && (tail == [] <==> Total(target, cost) <= cap)
            && (tail != [] ==> Total(target - KeysOf(tail[..|tail| - 1]), cost) > cap)
  {
    hide Total, Stored, Replay, Legal, Departures, Allowed, Applied, Tail;
    LegalStep(trace, i, cost, cap);
    var m, op := Replay(trace[..i], cost, cap), trace[i].op;
    WriteIs(m, trace[i], cost, cap);
    var target, tail := Stored(m, op.key, op.value, op.expireOff), Tail(m, trace[i]);
    assert target - KeysOf<K, V>([]) == target by { NoDepartures(target, op.nowOff); }
    if tail != [] {
      assert tail[..0] == [];
    }
  }

  /** Where every item costs one, as without a cost function, a write into a full shard evicts exactly one item. */
  lemma UnitCostEvictsOne<K, V>(trace: seq<Event<K, V>>, i: nat, cost: (K, V) -> nat, cap: nat)
    requires Legal(trace, cost, cap) && i < |trace| && trace[i].op.SetOp?
    requires cap > 0 && forall key, value :: cost(key, value) == 1
    ensures var m, op := Replay(trace[..i], cost, cap), trace[i].op;
            && |m| <= cap
            && |Tail(m, trace[i])| == if op.key !in m && |m| == cap then 1 else 0
  {
    hide Total, Stored, Replay, Legal, Departures, Allowed, Applied, Tail, KeysOf;
    LegalStep(trace, i, cost, cap);
    var m, op := Replay(trace[..i], cost, cap), trace[i].op;
    RunFits(trace[..i], cost, cap);
    TotalIsSize(m, cost);
    WriteIs(m, trace[i], cost, cap);
    var target, tail := Stored(m, op.key, op.value, op.expireOff), Tail(m, trace[i]);
    StoredSize(m, op.key, op.value, op.expireOff);
    TotalIsSize(target, cost);
    EvictsNoMore(trace, i, cost, cap);
    if |tail| > 1 {
      OneGone(target, tail, op.nowOff);
      TotalIsSize(target - KeysOf(tail[..1]), cost);
      assert false;
    }
  }

  lemma StoredSize<K, V>(m: map<K, Entry<V>>, key: K, value: V, off: nat)
    ensures |Stored(m, key, value, off)| == if key in m then |m| else |m| + 1
  {
    assert Stored(m, key, value, off).Keys == m.Keys + {key};
  }

  lemma {:induction false} TotalIsSize<K, V>(m: map<K, Entry<V>>, cost: (K, V) -> nat)
    requires forall key, value :: cost(key, value) == 1
    ensures Total(m, cost) == |m|
    decreases |m|
  {
    if m != map[] {
      Smaller(m, Pick(m));
      TotalIsSize(m - {Pick(m)}, cost);
    }
  }

  lemma OneGone<K, V>(m: map<K, Entry<V>>, tail: seq<Deletion<K, V>>, nowOff: nat)
    requires Departures(m, tail, nowOff) && tail != []
    ensures |m - KeysOf(tail[..1])| == |m| - 1
  {
    assert KeysOf(tail[..1]) == {tail[0].key} by {
      assert tail[..1] == [tail[0]];
    }
    Smaller(m, tail[0].key);
  }

  lemma {:induction false} LegalPrefix<K, V>(trace: seq<Event<K, V>>, i: nat, cost: (K, V) -> nat, cap: nat)
    requires Legal(trace, cost, cap) && i <= |trace|
    ensures Legal(trace[..i], cost, cap)
  {
    if i < |trace| {
      LegalPrefix(trace[..|trace| - 1], i, cost, cap);
      assert trace[..|trace| - 1][..i] == trace[..i];
    } else {
      assert trace[..i] == trace;
    }
  }

  // ---- The shard ----

  ghost function OpsOf<K, V>(trace: seq<Event<K, V>>): (ops: seq<Op<K, V>>)
    ensures |ops| == |trace| && forall i | 0 <= i < |ops| :: ops[i] == trace[i].op
  {
    seq(|trace|, i requires 0 <= i < |trace| => trace[i].op)
  }

  /** The shard is where the trace leads: same map, same reports, same writes. */
  ghost predicate Follows<K, V>(m: map<K, Entry<V>>, reported: seq<Deletion<K, V>>, stored: seq<(K, V)>,
                                trace: seq<Event<K, V>>, cost: (K, V) -> nat, cap: nat)
  {
    && Legal(trace, cost, cap) && m == Replay(trace, cost, cap)
    && reported == AllReports(trace) && stored == Writes(OpsOf(trace), cost, cap)
  }

  lemma FollowsNothing<K, V>(cost: (K, V) -> nat, cap: nat)
    ensures Follows(map[], [], [], [], cost, cap)
  {
  }

  lemma FollowsFurther<K, V>(m: map<K, Entry<V>>, reported: seq<Deletion<K, V>>, stored: seq<(K, V)>,
                             trace: seq<Event<K, V>>, e: Event<K, V>, cost: (K, V) -> nat, cap: nat)
    requires Follows(m, reported, stored, trace, cost, cap) && Allowed(m, e, cost, cap)
    ensures Follows(Applied(m, e, cost, cap), reported + e.reports,
                    if e.op.SetOp? && cost(e.op.key, e.op.value) <= cap then stored + [(e.op.key, e.op.value)]
                      else stored,
                    trace + [e], cost, cap)
  {
    hide Allowed, Applied;
    assert (trace + [e])[..|trace|] == trace;
    assert OpsOf(trace + [e])[..|trace|] == OpsOf(trace);
  }

  lemma WriteAllowed<K, V>(m: map<K, Entry<V>>, op: Op<K, V>, tail: seq<Deletion<K, V>>, cost: (K, V) -> nat, cap: nat)
    requires op.SetOp? && cost(op.key, op.value) <= cap
    requires var target := Stored(m, op.key, op.value, op.expireOff);
             && Departures(target, tail, op.nowOff) && Needed(target, tail, cost, cap)
             && Total(target - KeysOf(tail), cost) <= cap
    ensures var e := Event(op, None, Reported(m, op.key, Replacement) + tail);
            && Allowed(m, e, cost, cap)
            && Applied(m, e, cost, cap) == Stored(m, op.key, op.value, op.expireOff) - KeysOf(tail)
  {
    hide Departures, KeysOf, Stored, Needed, Total;
    assert Tail(m, Event(op, None, Reported(m, op.key, Replacement) + tail)) == tail;
  }

  lemma OtherAllowed<K, V>(m: map<K, Entry<V>>, e: Event<K, V>, cost: (K, V) -> nat, cap: nat)
    requires match e.op
             case SetOp(key, value, _, _) =>
               cost(key, value) > cap && e.answer == None && e.reports == Reported(m, key, Overflow)
             case GetOp(key, nowOff, _) =>
               && e.answer == (if Gone(m, key, nowOff) then None else Some(m[key].value))
               && e.reports == if Gone(m, key, nowOff) then Reported(m, key, Expiration) else []
             case DeleteOp(key) => e.answer == None && e.reports == Reported(m, key, Invalidation)
    ensures Allowed(m, e, cost, cap)
    ensures Applied(m, e, cost, cap)
         == match e.op
            case SetOp(key, _, _, _) => m - {key}
            case GetOp(key, nowOff, refresh) =>
              if Gone(m, key, nowOff) then m - {key}
              else if refresh.Some? then m[key := m[key].(expireOff := refresh.value)] else m
            case DeleteOp(key) => m - {key}
  {
  }

  lemma FitsAfter<K, V>(shard: Shard<K, V>)
    requires shard.Valid()
    ensures Total(shard.Map(), shard.cost) <= shard.cap
  {
    AtRestWeight(shard.View(), shard.hash, shard.cost, shard.cap);
  }

  /** Any one operation does to the shard what its event does to the plain map. */
  method Apply<K(==), V>(shard: Shard<K, V>, op: Op<K, V>, ghost trace: seq<Event<K, V>>)
    returns (answer: Option<V>, ghost e: Event<K, V>)
    requires shard.Valid() && Follows(shard.Map(), shard.reported, shard.stored, trace, shard.cost, shard.cap)
    modifies shard, shard.storage.slots, shard.storage.overflows, shard.policy
    ensures shard.Valid() && e.op == op && e.answer == answer
    ensures shard.storage == old(shard.storage)
            || (fresh(shard.storage) && fresh(shard.storage.slots) && fresh(shard.storage.overflows))
    ensures Allowed(old(shard.Map()), e, shard.cost, shard.cap)
    ensures Follows(shard.Map(), shard.reported, shard.stored, trace + [e], shard.cost, shard.cap)
  {
    hide Follows, AtRest, Contents, Unique, Departures, KeysOf, Stored, Needed, Total, Allowed, Applied, Tail;
    answer := None;
    ghost var m, log, stored := shard.Map(), shard.reported, shard.stored;
    match op {
      case SetOp(key, value, expireOff, nowOff) =>
        ghost var tail := shard.Set(key, value, expireOff, nowOff);
        if shard.cost(key, value) <= shard.cap {
          FitsAfter(shard);
          ghost var replaced := Reported(m, key, Replacement);
          e := Event(op, None, replaced + tail);
          assert log + replaced + tail == log + (replaced + tail);
          WriteAllowed(m, op, tail, shard.cost, shard.cap);
        } else {
          e := Event(op, None, Reported(m, key, Overflow));
          OtherAllowed(m, e, shard.cost, shard.cap);
        }
      case GetOp(key, nowOff, refresh) =>
        answer := shard.Get(key, nowOff, refresh);
        e := Event(op, answer, if Gone(m, key, nowOff) then Reported(m, key, Expiration) else []);
        assert key !in m ==> m - {key} == m;
        assert log + [] == log;
        OtherAllowed(m, e, shard.cost, shard.cap);
      case DeleteOp(key) =>
        shard.DeleteKey(key, Invalidation);
        e := Event(op, None, Reported(m, key, Invalidation));
        OtherAllowed(m, e, shard.cost, shard.cap);
    }
    FollowsFurther(m, log, stored, trace, e, shard.cost, shard.cap);
  }

  /** Any sequence of operations on a new shard is a legal run of the plain map: the shard ends as that map, having
      reported exactly what the run reports, and everything it ever took is still live or was reported, each exactly
      once. */
  method Run<K(==), V>(shard: Shard<K, V>, ops: seq<Op<K, V>>)
    returns (answers: seq<Option<V>>, ghost trace: seq<Event<K, V>>)
    requires shard.Valid() && shard.Map() == map[] && shard.reported == [] && shard.stored == []
    modifies shard, shard.storage.slots, shard.storage.overflows, shard.policy
    ensures shard.Valid() && |answers| == |trace| == |ops|
    ensures forall i | 0 <= i < |ops| :: trace[i].op == ops[i] && trace[i].answer == answers[i]
    ensures Legal(trace, shard.cost, shard.cap) && shard.Map() == Replay(trace, shard.cost, shard.cap)
    ensures shard.reported == AllReports(trace)
    ensures multiset(Writes(ops, shard.cost, shard.cap))
         == Items(shard.storage.slots[..]) + ReportedItems(AllReports(trace))
  {
    hide *;
    answers, trace := [], [];
    FollowsNothing(shard.cost, shard.cap);
    while |answers| < |ops|
      invariant |answers| == |trace| <= |ops| && shard.Valid()
      invariant shard.storage == old(shard.storage)
                || (fresh(shard.storage) && fresh(shard.storage.slots) && fresh(shard.storage.overflows))
      invariant forall i | 0 <= i < |trace| :: trace[i].op == ops[i] && trace[i].answer == answers[i]
      invariant Follows(shard.Map(), shard.reported, shard.stored, trace, shard.cost, shard.cap)
    {
      ghost var e;
      var answer;
      answer, e := Apply(shard, ops[|answers|], trace);
      answers, trace := answers + [answer], trace + [e];
    }
    FollowsMeans(shard.Map(), shard.reported, shard.stored, trace, shard.cost, shard.cap);
    assert OpsOf(trace) == ops;
    Conserves(shard);
  }

  lemma FollowsMeans<K, V>(m: map<K, Entry<V>>, reported: seq<Deletion<K, V>>, stored: seq<(K, V)>,
                           trace: seq<Event<K, V>>, cost: (K, V) -> nat, cap: nat)
    requires Follows(m, reported, stored, trace, cost, cap)
    ensures Legal(trace, cost, cap) && m == Replay(trace, cost, cap)
    ensures reported == AllReports(trace) && stored == Writes(OpsOf(trace), cost, cap)
  {
  }

  lemma Conserves<K, V>(shard: Shard<K, V>)
    requires shard.Valid()
    ensures multiset(shard.stored) == Items(shard.storage.slots[..]) + ReportedItems(shard.reported)
  {
    hide TableInv, Linked, LiveSet, DeadSet, TombSet, Weight, Items, ReportedItems;
  }
}
