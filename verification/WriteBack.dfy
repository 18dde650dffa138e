/**
 The write-back path: tasks reach a worker through its FIFO queue, the worker coalesces runs of them into batches. L2 is
 a map whose batch write applies its list in order. What a worker sees of its queue is up to the producers: any answers
 to "is the next task there yet" and "is the queue at most half full" are covered.
 */
module WriteBack {
  import opened Options

  const WRITE_BACK_BATCH_MAX := 128

  datatype Batching = BatchingFull | BatchingNone | BatchingAdaptive

  datatype Task<K, V> =
    | Write(key: K, value: V, ttl: nat)
    | Delete(key: K)
    | Marker(id: nat)
  {
    predicate SameKind(first: Task<K, V>) {
      (Write? && first.Write? && ttl == first.ttl) || (Delete? && first.Delete?)
    }
  }

  /** What a worker does, in order: hand a batch to L2, or release a Wait checkpoint. */
  datatype Event<K, V> = Deliver(batch: seq<Task<K, V>>) | Release(id: nat)

  // ---- L2 ----

  datatype Item<V> = Item(value: V, ttl: nat)
  type L2<K, V> = map<K, Item<V>>

  /** One task on its own. */
  function Apply<K, V>(l2: L2<K, V>, task: Task<K, V>): L2<K, V> {
    match task
    case Write(key, value, ttl) => l2[key := Item(value, ttl)]
    case Delete(key) => l2 - {key}
    case Marker(_) => l2
  }

  /** The queue, one task at a time. */
  function ApplyAll<K, V>(l2: L2<K, V>, tasks: seq<Task<K, V>>): L2<K, V> {
    if tasks == [] then l2 else Apply(ApplyAll(l2, tasks[..|tasks| - 1]), tasks[|tasks| - 1])
  }

  /** BatchSet: the pairs in order, all with the batch's ttl. */
  function BatchSet<K, V>(l2: L2<K, V>, batch: seq<Task<K, V>>, ttl: nat): L2<K, V>
    requires forall i | 0 <= i < |batch| :: batch[i].Write?
  {
    if batch == [] then l2
    else
      var last := batch[|batch| - 1];
      BatchSet(l2, batch[..|batch| - 1], ttl)[last.key := Item(last.value, ttl)]
  }

  /** BatchDelete: the keys as a set. */
  ghost function BatchDelete<K, V>(l2: L2<K, V>, batch: seq<Task<K, V>>): L2<K, V>
    requires forall i | 0 <= i < |batch| :: batch[i].Delete?
  {
    l2 - (set i | 0 <= i < |batch| :: batch[i].key)
  }

  /** One kind, one ttl, and no longer than the cap. */
  ghost predicate WellFormed<K, V>(batch: seq<Task<K, V>>) {
    1 <= |batch| <= WRITE_BACK_BATCH_MAX && forall i | 0 <= i < |batch| :: batch[i].SameKind(batch[0])
  }

  ghost predicate AllWellFormed<K, V>(events: seq<Event<K, V>>) {
    forall i | 0 <= i < |events| && events[i].Deliver? :: WellFormed(events[i].batch)
  }

  // ---- How tasks are grouped ----

  /** What a worker sees of its queue: whether task `i` is there when it looks for it without waiting, and whether the
      queue is at most half full when it takes up task `i`. */
  datatype Sight = Sight(ready: nat -> bool, half: nat -> bool)

  /** A write that the mode sends on its own. */
  predicate Alone<K, V>(mode: Batching, sight: Sight, task: Task<K, V>, p: nat) {
    !task.Delete? && (mode.BatchingNone? || (mode.BatchingAdaptive? && sight.half(p)))
  }

  /** The run of `n` tasks from `p` cannot be longer: it is as long as a batch may be, or nothing of its kind was there
      when the worker looked. */
  ghost predicate Longest<K, V>(stream: seq<Task<K, V>>, sight: Sight, p: nat, n: nat) {
    n == WRITE_BACK_BATCH_MAX || Ends(stream, sight, p, n)
  }

  ghost predicate Ends<K, V>(stream: seq<Task<K, V>>, sight: Sight, p: nat, n: nat) {
    p + n >= |stream| || !sight.ready(p + n) || !stream[p + n].SameKind(stream[p])
  }

  /** The batch that starts with task `p` is that one write, or the longest run the worker saw. */
  ghost predicate Grouped<K, V>(mode: Batching, sight: Sight, stream: seq<Task<K, V>>, p: nat, batch: seq<Task<K, V>>) {
    && batch != [] && p + |batch| <= |stream| && batch == stream[p..p + |batch|]
    && if Alone(mode, sight, stream[p], p) then |batch| == 1
       else (forall i | p < i < p + |batch| :: sight.ready(i)) && Longest(stream, sight, p, |batch|)
  }

  lemma RunIsGrouped<K, V>(mode: Batching, sight: Sight, stream: seq<Task<K, V>>, p: nat, run: seq<Task<K, V>>)
    requires run != [] && p + |run| <= |stream| && run == stream[p..p + |run|]
    requires !Alone(mode, sight, run[0], p) && forall i | p < i < p + |run| :: sight.ready(i)
    requires Longest(stream, sight, p, |run|)
    ensures Grouped(mode, sight, stream, p, run)
  {
    hide Longest, Alone;
    assert run[0] == stream[p];
  }

  /** Every delivery of a worker is such a batch. */
  ghost predicate AllGrouped<K, V>(mode: Batching, sight: Sight, stream: seq<Task<K, V>>, events: seq<Event<K, V>>) {
    forall i | 0 <= i < |events| && events[i].Deliver? ::
      Grouped(mode, sight, stream, |Tasks(events[..i])|, events[i].batch)
  }

  lemma OneMoreGrouped<K, V>(mode: Batching, sight: Sight, stream: seq<Task<K, V>>, events: seq<Event<K, V>>,
                             e: Event<K, V>)
    requires AllGrouped(mode, sight, stream, events)
    requires e.Deliver? ==> Grouped(mode, sight, stream, |Tasks(events)|, e.batch)
    ensures AllGrouped(mode, sight, stream, events + [e])
  {
    hide Grouped;
    forall i | 0 <= i < |events + [e]| ensures (events + [e])[..i] == events[..i] {
    }
    assert events[..|events|] == events;
  }

  /** How long the batch from task `p` is in each mode: deletes always coalesce, writes do without batching never and in
      the adaptive mode once the queue is more than half full. */
  ghost predicate AsLong<K, V>(mode: Batching, sight: Sight, stream: seq<Task<K, V>>, p: nat, batch: seq<Task<K, V>>) {
    batch != [] &&
    match mode
    case BatchingFull => Longest(stream, sight, p, |batch|)
    case BatchingNone => if batch[0].Delete? then Longest(stream, sight, p, |batch|) else |batch| == 1
    case BatchingAdaptive =>
      if batch[0].Delete? || !sight.half(p) then Longest(stream, sight, p, |batch|) else |batch| == 1
  }

  ghost predicate AllAsLong<K, V>(mode: Batching, sight: Sight, stream: seq<Task<K, V>>, events: seq<Event<K, V>>) {
    forall i | 0 <= i < |events| && events[i].Deliver? ::
      AsLong(mode, sight, stream, |Tasks(events[..i])|, events[i].batch)
  }

  /** deliverRun, as L2 sees it. */
  ghost function Delivered<K, V>(l2: L2<K, V>, batch: seq<Task<K, V>>): L2<K, V>
    requires WellFormed(batch)
  {
    if batch[0].Delete? then BatchDelete(l2, batch) else BatchSet(l2, batch, batch[0].ttl)
  }

  ghost function Effect<K, V>(l2: L2<K, V>, events: seq<Event<K, V>>): L2<K, V>
    requires AllWellFormed(events)
  {
    if events == [] then l2
    else
      var before := Effect(l2, events[..|events| - 1]);
      match events[|events| - 1]
      case Deliver(batch) => Delivered(before, batch)
      case Release(_) => before
  }

  /** The tasks a list of events has dealt with, in order. */
  ghost function Tasks<K, V>(events: seq<Event<K, V>>): seq<Task<K, V>> {
    if events == [] then []
    else
      Tasks(events[..|events| - 1]) + match events[|events| - 1]
                                      case Deliver(batch) => batch
                                      case Release(id) => [Marker(id)]
  }

  // ---- Batches mean what their tasks mean ----

  lemma {:induction false} BatchSetIsFifo<K, V>(l2: L2<K, V>, batch: seq<Task<K, V>>, ttl: nat)
    requires forall i | 0 <= i < |batch| :: batch[i].Write? && batch[i].ttl == ttl
    ensures BatchSet(l2, batch, ttl) == ApplyAll(l2, batch)
  {
    if batch != [] {
      BatchSetIsFifo(l2, batch[..|batch| - 1], ttl);
    }
  }

  lemma {:induction false} BatchDeleteIsFifo<K, V>(l2: L2<K, V>, batch: seq<Task<K, V>>)
    requires forall i | 0 <= i < |batch| :: batch[i].Delete?
    ensures BatchDelete(l2, batch) == ApplyAll(l2, batch)
  {
    if batch != [] {
      var rest := batch[..|batch| - 1];
      BatchDeleteIsFifo(l2, rest);
      assert (set i | 0 <= i < |batch| :: batch[i].key) == (set i | 0 <= i < |rest| :: rest[i].key)
             + {batch[|batch| - 1].key} by {
        forall i | 0 <= i < |rest| ensures rest[i] == batch[i] {}
      }
    }
  }

  lemma {:induction false} ApplyAllConcat<K, V>(l2: L2<K, V>, a: seq<Task<K, V>>, b: seq<Task<K, V>>)
    ensures ApplyAll(l2, a + b) == ApplyAll(ApplyAll(l2, a), b)
  {
    if b == [] {
      assert a + b == a;
    } else {
      ApplyAllConcat(l2, a, b[..|b| - 1]);
      assert (a + b)[..|a + b| - 1] == a + b[..|b| - 1];
    }
  }

  /** Whatever the batching, L2 ends as if the tasks had been applied one at a time in queue order. */
  lemma {:induction false} EffectIsFifo<K, V>(l2: L2<K, V>, events: seq<Event<K, V>>)
    requires AllWellFormed(events)
    ensures Effect(l2, events) == ApplyAll(l2, Tasks(events))
  {
    if events != [] {
      var rest, last := events[..|events| - 1], events[|events| - 1];
      EffectIsFifo(l2, rest);
      var before := Effect(l2, rest);
      match last {
        case Deliver(batch) =>
          assert WellFormed(batch);
          if batch[0].Delete? {
            BatchDeleteIsFifo(before, batch);
          } else {
            BatchSetIsFifo(before, batch, batch[0].ttl);
          }
          ApplyAllConcat(l2, Tasks(rest), batch);
        case Release(id) =>
          var marker: seq<Task<K, V>> := [Marker(id)];
          ApplyAllConcat(l2, Tasks(rest), marker);
          assert marker[..0] == [];
      }
    }
  }

  // ---- The worker ----

  /** One worker and its queue. `stream` is everything ever enqueued, `taken` how far the worker has received. */
  class Worker<K, V> {
    const mode: Batching
    const sight: Sight
    const stream: seq<Task<K, V>>
    var taken: nat
    var events: seq<Event<K, V>>

    constructor (mode: Batching, sight: Sight, stream: seq<Task<K, V>>)
      ensures this.mode == mode && this.sight == sight && this.stream == stream && taken == 0 && events == []
      ensures Valid([])
    {
      this.mode, this.sight, this.stream, taken, events := mode, sight, stream, 0, [];
    }

    /** Everything received is dealt with, except `inHand`, in the batches the mode asks for. */
    ghost predicate Valid(inHand: seq<Task<K, V>>)
      reads this
    {
      && taken <= |stream| && AllWellFormed(events) && Tasks(events) + inHand == stream[..taken]
      && AllGrouped(mode, sight, stream, events)
    }

    /** Hands a run to L2, keeping what was received behind it in hand. */
    method Send(batch: seq<Task<K, V>>, ghost rest: seq<Task<K, V>>)
      requires WellFormed(batch) && Valid(batch + rest)
      requires Grouped(mode, sight, stream, |Tasks(events)|, batch)
      modifies this`events
      ensures Valid(rest) && events == old(events) + [Deliver(batch)]
    {
      hide AllGrouped, Grouped;
      OneMoreGrouped(mode, sight, stream, events, Deliver(batch));
      events := events + [Deliver(batch)];
      assert events[..|events| - 1] == old(events);
      assert Tasks(events) + rest == Tasks(old(events)) + (batch + rest);
    }

    method ReleaseMarker(id: nat)
      requires Valid([Marker(id)])
      modifies this`events
      ensures Valid([]) && events == old(events) + [Release(id)]
    {
      hide AllGrouped;
      OneMoreGrouped(mode, sight, stream, events, Release(id));
      events := events + [Release(id)];
      assert events[..|events| - 1] == old(events);
      assert Tasks(events) + [] == Tasks(events);
    }

    /** Coalesces the tasks of first's kind queued behind it into one batch, the longest it sees. A task of another kind
        ends the run and is handed back; a Wait marker ends it and is released after the delivery. */
    method FlushRun(first: Task<K, V>) returns (next: Option<Task<K, V>>)
      requires Valid([first]) && !first.Marker? && !Alone(mode, sight, first, |Tasks(events)|)
      modifies this`taken, this`events
      ensures taken >= old(taken)
      ensures next.None? ==> Valid([])
      ensures next.Some? ==> Valid([next.value]) && !next.value.Marker? && taken > old(taken)
    {
      hide AllGrouped, Grouped, Alone;
      var run := [first];
      ghost var p := |Tasks(events)|;
      InHand(events, run, stream, taken);
      while |run| < WRITE_BACK_BATCH_MAX
        invariant WellFormed(run) && run[0] == first && Valid(run) && taken >= old(taken) && events == old(events)
        invariant p + |run| == taken && run == stream[p..taken] && forall i | p < i < taken :: sight.ready(i)
        decreases WRITE_BACK_BATCH_MAX - |run|
      {
        if !(taken < |stream| && sight.ready(taken)) {
          RunIsGrouped(mode, sight, stream, p, run);
          assert run + [] == run;
          Send(run, []);
          return None;
        }
        var task := stream[taken];
        taken := taken + 1;
        assert stream[..taken] == stream[..taken - 1] + [task];
        assert Tasks(events) + (run + [task]) == Tasks(events) + run + [task];
        if task.SameKind(first) {
          run := run + [task];
        } else {
          RunIsGrouped(mode, sight, stream, p, run);
          Send(run, [task]);
          if task.Marker? {
            ReleaseMarker(task.id);
            return None;
          }
          return Some(task);
        }
      }
      RunIsGrouped(mode, sight, stream, p, run);
      assert run + [] == run;
      Send(run, []);
      return None;
    }

    /** Hands one task to L2, coalescing what is queued behind it unless the mode says to send it alone. */
    method FlushWrite(task: Task<K, V>)
      requires Valid([task])
      modifies this`taken, this`events
      ensures Valid([]) && taken >= old(taken) && AllGrouped(mode, sight, stream, events)
    {
      hide AllGrouped;
      var first := task;
      while true
        invariant Valid([first]) && taken >= old(taken)
        decreases |stream| - taken
      {
        if first.Marker? {
          ReleaseMarker(first.id);
          return;
        }
        InHand(events, [first], stream, taken);
        if Alone(mode, sight, first, taken - 1) {
          assert [first] + [] == [first];
          Send([first], []);
          return;
        }
        var next := FlushRun(first);
        if next.None? {
          return;
        }
        first := next.value;
      }
    }

    /** The worker's life, up to the shutdown drain: every task ends up delivered, in order, in well-formed batches as
        long as the mode and the queue allow, and L2 ends as plain FIFO application leaves it. */
    method Drain(ghost l2: L2<K, V>)
      requires Valid([])
      modifies this`taken, this`events
      ensures taken == |stream| && Tasks(events) == stream && AllWellFormed(events)
      ensures AllGrouped(mode, sight, stream, events) && AllAsLong(mode, sight, stream, events)
      ensures Effect(l2, events) == ApplyAll(l2, stream)
      ensures forall i | 0 <= i < |events| && events[i].Release? :: ReleasedInPlace(l2, events, i, stream)
    {
      hide AllGrouped;
      assert Tasks(events) + [] == Tasks(events);
      while taken < |stream|
        invariant Valid([])
        decreases |stream| - taken
      {
        var task := stream[taken];
        taken := taken + 1;
        assert stream[..taken] == stream[..taken - 1] + [task];
        FlushWrite(task);
      }
      assert Tasks(events) + [] == Tasks(events);
      assert stream[..taken] == stream;
      EffectIsFifo(l2, events);
      GroupedByMode(mode, sight, stream, events);
      forall i | 0 <= i < |events| && events[i].Release? ensures ReleasedInPlace(l2, events, i, stream) {
        MarkerAfterEarlierTasks(l2, events, i);
      }
    }
  }

  /** The run in hand is the last of what was received. */
  lemma InHand<K, V>(events: seq<Event<K, V>>, run: seq<Task<K, V>>, stream: seq<Task<K, V>>, taken: nat)
    requires taken <= |stream| && Tasks(events) + run == stream[..taken]
    ensures |Tasks(events)| + |run| == taken && run == stream[|Tasks(events)|..taken]
  {
    assert |Tasks(events) + run| == taken;
    assert run == stream[..taken][|Tasks(events)|..];
  }

  /** The grouping, mode by mode. */
  lemma GroupedByMode<K, V>(mode: Batching, sight: Sight, stream: seq<Task<K, V>>, events: seq<Event<K, V>>)
    requires AllGrouped(mode, sight, stream, events)
    ensures AllAsLong(mode, sight, stream, events)
  {
    hide Longest;
    forall i | 0 <= i < |events| && events[i].Deliver?
      ensures AsLong(mode, sight, stream, |Tasks(events[..i])|, events[i].batch)
    {
      var p := |Tasks(events[..i])|;
      assert Grouped(mode, sight, stream, p, events[i].batch);
      assert events[i].batch[0] == stream[p];
    }
  }

  /** Event `i` releases a Wait marker of the queue when everything queued before that marker, and nothing else, has
      been delivered: L2 is as applying exactly those tasks leaves it. */
  ghost predicate ReleasedInPlace<K, V>(l2: L2<K, V>, events: seq<Event<K, V>>, i: nat, stream: seq<Task<K, V>>)
    requires i < |events| && events[i].Release? && AllWellFormed(events)
  {
    exists p: nat :: p < |stream| && stream[p] == Marker(events[i].id) && Tasks(events[..i]) == stream[..p]
                     && Effect(l2, events[..i]) == ApplyAll(l2, stream[..p])
  }

  lemma {:induction false} TasksPrefix<K, V>(events: seq<Event<K, V>>, i: nat)
    requires i < |events| && events[i].Release?
    ensures |Tasks(events[..i])| < |Tasks(events)|
    ensures Tasks(events)[|Tasks(events[..i])|] == Marker(events[i].id)
    ensures Tasks(events)[..|Tasks(events[..i])|] == Tasks(events[..i])
  {
    var last := |events| - 1;
    if i < last {
      TasksPrefix(events[..last], i);
      assert events[..last][..i] == events[..i];
    }
  }

  /** A worker's queue is its events' tasks, so every release is in its marker's place. */
  lemma MarkerAfterEarlierTasks<K, V>(l2: L2<K, V>, events: seq<Event<K, V>>, i: nat)
    requires i < |events| && events[i].Release? && AllWellFormed(events)
    ensures ReleasedInPlace(l2, events, i, Tasks(events))
  {
    TasksPrefix(events, i);
    EffectIsFifo(l2, events[..i]);
  }

  // ---- Several workers ----

  /** The tasks on one key. */
  function Only<K(==), V>(tasks: seq<Task<K, V>>, key: K): seq<Task<K, V>> {
    if tasks == [] then []
    else
      var rest, last := Only(tasks[..|tasks| - 1], key), tasks[|tasks| - 1];
      if !last.Marker? && last.key == key then rest + [last] else rest
  }

  ghost function At<K, V>(l2: L2<K, V>, key: K): Option<Item<V>> {
    if key in l2 then Some(l2[key]) else None
  }

  lemma {:induction false} KeyDependsOnItsTasks<K, V>(l2: L2<K, V>, tasks: seq<Task<K, V>>, key: K)
    ensures At(ApplyAll(l2, tasks), key) == At(ApplyAll(l2, Only(tasks, key)), key)
  {
    if tasks != [] {
      var rest, last := tasks[..|tasks| - 1], tasks[|tasks| - 1];
      KeyDependsOnItsTasks(l2, rest, key);
      if !last.Marker? && last.key == key {
        var only := Only(rest, key) + [last];
        assert only[..|only| - 1] == Only(rest, key);
      }
    }
  }

  /** A key's tasks all go through one queue, so however the workers interleave, the tasks on each key keep their order:
      any two such interleavings leave the same L2. */
  lemma WorkersCommute<K(!new), V>(l2: L2<K, V>, a: seq<Task<K, V>>, b: seq<Task<K, V>>)
    requires forall key: K :: Only(a, key) == Only(b, key)
    ensures ApplyAll(l2, a) == ApplyAll(l2, b)
  {
    var x, y := ApplyAll(l2, a), ApplyAll(l2, b);
    forall key: K ensures At(x, key) == At(y, key) {
      KeyDependsOnItsTasks(l2, a, key);
      KeyDependsOnItsTasks(l2, b, key);
    }
    assert forall key: K :: key in x <==> At(x, key).Some?;
    assert forall key: K :: key in y <==> At(y, key).Some?;
  }
}
