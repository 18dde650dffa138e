/**
 Overlapping batches over one registry, interleaved step by step. A batch claims its misses one by one, loads, releases
 its slab of flights in order, and then waits for what it joined. Flights are numbered as they are registered.
 */
module BatchWaits {

  datatype Phase = Claiming | Loading | Releasing(i: nat) | Waiting | Done

  /** `took` is the flight each miss claimed so far ended with; `calls` the slab of owned flights; `joined` the others,
      of which the first `waited` are over. */
  datatype Batch<K> = Batch(phase: Phase, misses: seq<K>, took: seq<nat>, calls: seq<nat>, joined: seq<nat>,
      waited: nat)
  {
    /** How far into the slab the releases have got. */
    function Dropped(): nat {
      match phase
      case Claiming | Loading => 0
      case Releasing(i) => i
      case Waiting | Done => |calls|
    }
  }

  /** A flight's owner, its place in the owner's slab, and its key. */
  datatype Flight<K> = Flight(owner: nat, index: nat, key: K)

  datatype State<K> = State(batches: map<nat, Batch<K>>, running: map<K, nat>, flights: seq<Flight<K>>,
      released: set<nat>)

  datatype Step<K> =
    | Start(b: nat, misses: seq<K>)
    | Claim(b: nat)
    | Load(b: nat)
    | Loaded(b: nat)
    | Release(b: nat)
    | Wait(b: nat)
    | Next(b: nat)
    | Cancel(b: nat)

  /** Program order: which step of a batch comes next. Only a wait looks at another batch's flight. */
  ghost predicate Enabled<K>(s: State<K>, step: Step<K>) {
    if step.Start? then step.b !in s.batches
    else
      && step.b in s.batches
      && var batch := s.batches[step.b];
         match step
         case Start(_, _) => false
         case Claim(_) => batch.phase.Claiming? && |batch.took| < |batch.misses|
         case Load(_) => batch.phase.Claiming? && |batch.took| == |batch.misses|
         case Loaded(_) => batch.phase.Loading?
         case Release(_) =>
           && batch.phase.Releasing? && batch.phase.i < |batch.calls|
           && batch.calls[batch.phase.i] < |s.flights|
         case Wait(_) => batch.phase.Releasing? && batch.phase.i == |batch.calls|
         case Next(_) => batch.phase.Waiting? && batch.waited < |batch.joined|
           && batch.joined[batch.waited] in s.released
         case Cancel(_) => batch.phase.Waiting?
  }

  ghost function Put<K>(s: State<K>, b: nat, batch: Batch<K>): State<K> { s.(batches := s.batches[b := batch]) }

  ghost function Do<K>(s: State<K>, step: Step<K>): State<K>
    requires Enabled(s, step)
  {
    match step
    case Start(b, misses) => Put(s, b, Batch(Claiming, misses, [], [], [], 0))
    case Claim(b) => DoClaim(s, b)
    // A batch that owns nothing has nothing to load or release.
    case Load(b) =>
      var batch := s.batches[b];
      Put(s, b, batch.(phase := if batch.calls == [] then Waiting else Loading))
    case Loaded(b) => Put(s, b, s.batches[b].(phase := Releasing(0)))
    case Release(b) => DoRelease(s, b)
    case Wait(b) => Put(s, b, s.batches[b].(phase := Waiting))
    case Next(b) => Put(s, b, s.batches[b].(waited := s.batches[b].waited + 1))
    case Cancel(b) => Put(s, b, s.batches[b].(phase := Done))
  }

  /** One miss: it joins the flight running for its key, or registers the next of the slab. */
  ghost function DoClaim<K>(s: State<K>, b: nat): State<K>
    requires Enabled(s, Claim(b))
  {
    var batch := s.batches[b];
    var key := batch.misses[|batch.took|];
    if key in s.running then
      var f := s.running[key];
      Put(s, b, batch.(took := batch.took + [f], joined := batch.joined + [f]))
    else
      var f := |s.flights|;
      Put(s.(running := s.running[key := f], flights := s.flights + [Flight(b, |batch.calls|, key)]), b,
          batch.(took := batch.took + [f], calls := batch.calls + [f]))
  }

  /** The next flight of the slab leaves the registry and its waiters are woken. */
  ghost function DoRelease<K>(s: State<K>, b: nat): State<K>
    requires Enabled(s, Release(b))
  {
    var batch := s.batches[b];
    var f := batch.calls[batch.phase.i];
    Put(s.(running := s.running - {s.flights[f].key}, released := s.released + {f}), b,
        batch.(phase := Releasing(batch.phase.i + 1)))
  }

  ghost function Init<K>(): State<K> { State(map[], map[], [], {}) }

  // ---- The invariant ----

  /** The slab and the flights point at each other. */
  ghost predicate Aligned<K>(s: State<K>, b: nat, batch: Batch<K>) {
    forall j | 0 <= j < |batch.calls| ::
      batch.calls[j] < |s.flights| && s.flights[batch.calls[j]].owner == b && s.flights[batch.calls[j]].index == j
  }

  /** Every miss claimed so far has a flight of its key, owned or joined. */
  ghost predicate Served<K>(s: State<K>, batch: Batch<K>) {
    && |batch.took| <= |batch.misses| && |batch.calls| + |batch.joined| == |batch.took|
    && (forall i | 0 <= i < |batch.took| ::
          && batch.took[i] < |s.flights| && s.flights[batch.took[i]].key == batch.misses[i]
          && (batch.took[i] in batch.calls || batch.took[i] in batch.joined))
    && (forall i | 0 <= i < |batch.joined| :: batch.joined[i] < |s.flights|)
  }

  ghost predicate BatchInv<K>(s: State<K>, b: nat, batch: Batch<K>) {
    Aligned(s, b, batch) && Served(s, batch) && batch.Dropped() <= |batch.calls| && batch.waited <= |batch.joined|
  }

  /** A flight is in its owner's slab; it is released exactly when the owner's releases have passed it, and registered
      exactly until then. */
  ghost predicate FlightInv<K>(s: State<K>, f: nat)
    requires f < |s.flights|
  {
    var flight := s.flights[f];
    && flight.owner in s.batches
    && var batch := s.batches[flight.owner];
       && flight.index < |batch.calls| && batch.calls[flight.index] == f
       && (f in s.released <==> flight.index < batch.Dropped())
       && (f !in s.released ==> flight.key in s.running && s.running[flight.key] == f)
  }

  ghost predicate RunningInv<K>(s: State<K>, key: K)
    requires key in s.running
  {
    s.running[key] < |s.flights| && s.flights[s.running[key]].key == key && s.running[key] !in s.released
  }

  ghost predicate Inv<K>(s: State<K>) {
    && (forall b | b in s.batches :: BatchInv(s, b, s.batches[b]))
    && (forall f: nat | f < |s.flights| :: FlightInv(s, f))
    && (forall key | key in s.running :: RunningInv(s, key))
    && (forall f | f in s.released :: f < |s.flights|)
  }

  /** A step that only moves one batch on, without touching slabs, flights or the registry. */
  lemma PutKeepsInv<K>(s: State<K>, b: nat, batch: Batch<K>)
    requires Inv(s) && b in s.batches
    requires batch.calls == s.batches[b].calls && batch.Dropped() == s.batches[b].Dropped()
    requires batch.took == s.batches[b].took && batch.joined == s.batches[b].joined
             && batch.misses == s.batches[b].misses
    requires batch.waited <= |batch.joined|
    ensures Inv(Put(s, b, batch))
  {
    var s' := Put(s, b, batch);
    assert BatchInv(s, b, s.batches[b]);
    forall x | x in s'.batches ensures BatchInv(s', x, s'.batches[x]) {
      if x != b {
        BystanderKept(s, s', x, s.batches[x]);
      }
    }
    forall f: nat | f < |s'.flights| ensures FlightInv(s', f) {
      assert FlightInv(s, f);
    }
    forall key | key in s'.running ensures RunningInv(s', key) {
      assert RunningInv(s, key);
    }
  }

  lemma StartKeepsInv<K>(s: State<K>, b: nat, misses: seq<K>)
    requires Inv(s) && b !in s.batches
    ensures Inv(Put(s, b, Batch(Claiming, misses, [], [], [], 0)))
  {
    var s' := Put(s, b, Batch(Claiming, misses, [], [], [], 0));
    forall x | x in s'.batches ensures BatchInv(s', x, s'.batches[x]) {
      if x != b {
        BystanderKept(s, s', x, s.batches[x]);
      }
    }
    forall f: nat | f < |s'.flights| ensures FlightInv(s', f) {
      assert FlightInv(s, f);
    }
    forall key | key in s'.running ensures RunningInv(s', key) {
      assert RunningInv(s, key);
    }
  }

  /** Other batches do not notice flights being added. */
  lemma BystanderKept<K>(s: State<K>, s': State<K>, b: nat, batch: Batch<K>)
    requires BatchInv(s, b, batch) && s.flights <= s'.flights
    ensures BatchInv(s', b, batch)
  {
  }

  /** Nor does a slab notice changes of phase. */
  lemma SlabKept<K>(s: State<K>, s': State<K>, b: nat, batch: Batch<K>, batch': Batch<K>)
    requires s.flights <= s'.flights && batch'.calls == batch.calls
    ensures Aligned(s, b, batch) ==> Aligned(s', b, batch')
    ensures Served(s, batch) && batch'.took == batch.took && batch'.joined == batch.joined
            && batch'.misses == batch.misses ==>
              Served(s', batch')
  {
  }

  lemma ServedOneMore<K>(s: State<K>, s': State<K>, batch: Batch<K>, f: nat, owns: bool)
    requires Served(s, batch) && s.flights <= s'.flights && |batch.took| < |batch.misses|
    requires f < |s'.flights| && s'.flights[f].key == batch.misses[|batch.took|]
    ensures Served(s', if owns then batch.(took := batch.took + [f], calls := batch.calls + [f])
                       else batch.(took := batch.took + [f], joined := batch.joined + [f]))
  {
    var took, calls, joined := batch.took + [f], batch.calls + [f], batch.joined + [f];
    assert calls[|batch.calls|] == f && joined[|batch.joined|] == f;
    forall i | 0 <= i < |batch.took|
      ensures took[i] < |s.flights| && (took[i] in batch.calls || took[i] in batch.joined)
    {
      assert took[i] == batch.took[i];
    }
  }

  lemma AlignedOneMore<K>(s: State<K>, s': State<K>, b: nat, batch: Batch<K>, key: K)
    requires Aligned(s, b, batch) && s'.flights == s.flights + [Flight(b, |batch.calls|, key)]
    ensures forall took :: Aligned(s', b, batch.(took := took, calls := batch.calls + [|s.flights|]))
  {
  }

  lemma JoinKeepsInv<K>(s: State<K>, b: nat)
    requires Inv(s) && Enabled(s, Claim(b))
    requires var batch := s.batches[b]; batch.misses[|batch.took|] in s.running
    ensures Inv(DoClaim(s, b))
  {
    hide Served, Aligned;
    var batch, s' := s.batches[b], DoClaim(s, b);
    assert BatchInv(s, b, batch) && RunningInv(s, batch.misses[|batch.took|]);
    ServedOneMore(s, s', batch, s.running[batch.misses[|batch.took|]], false);
    SlabKept(s, s', b, batch, s'.batches[b]);
    forall x | x in s'.batches ensures BatchInv(s', x, s'.batches[x]) {
      if x != b {
        BystanderKept(s, s', x, s.batches[x]);
      }
    }
    forall f: nat | f < |s'.flights| ensures FlightInv(s', f) {
      assert FlightInv(s, f);
    }
    forall key | key in s'.running ensures RunningInv(s', key) {
      assert RunningInv(s, key);
    }
  }

  lemma OwnKeepsInv<K>(s: State<K>, b: nat)
    requires Inv(s) && Enabled(s, Claim(b))
    requires var batch := s.batches[b]; batch.misses[|batch.took|] !in s.running
    ensures Inv(DoClaim(s, b))
  {
    hide Served, Aligned;
    var batch, s' := s.batches[b], DoClaim(s, b);
    var f0 := |s.flights|;
    assert BatchInv(s, b, batch);
    AlignedOneMore(s, s', b, batch, batch.misses[|batch.took|]);
    ServedOneMore(s, s', batch, f0, true);
    forall x | x in s'.batches ensures BatchInv(s', x, s'.batches[x]) {
      if x != b {
        BystanderKept(s, s', x, s.batches[x]);
      }
    }
    forall f: nat | f < |s'.flights| ensures FlightInv(s', f) {
      if f < f0 {
        assert FlightInv(s, f) && s'.flights[f] == s.flights[f];
      }
    }
    forall key | key in s'.running ensures RunningInv(s', key) {
      if key in s.running {
        assert RunningInv(s, key);
      }
    }
  }

  /** Releasing the next of the slab leaves exactly the later ones registered. */
  lemma ReleaseKeepsInv<K>(s: State<K>, b: nat)
    requires Inv(s) && Enabled(s, Release(b))
    ensures Inv(DoRelease(s, b))
  {
    hide Served;
    var batch, s' := s.batches[b], DoRelease(s, b);
    var f0 := batch.calls[batch.phase.i];
    assert BatchInv(s, b, batch) && FlightInv(s, f0);
    SlabKept(s, s', b, batch, s'.batches[b]);
    forall x | x in s'.batches ensures BatchInv(s', x, s'.batches[x]) {
      if x != b {
        BystanderKept(s, s', x, s.batches[x]);
      }
    }
    forall f: nat | f < |s'.flights| ensures FlightInv(s', f) {
      assert FlightInv(s, f);
    }
    forall key | key in s'.running ensures RunningInv(s', key) {
      assert RunningInv(s, key);
      assert FlightInv(s, s.running[key]);
    }
  }

  lemma StepKeepsInv<K>(s: State<K>, step: Step<K>)
    requires Inv(s) && Enabled(s, step)
    ensures Inv(Do(s, step))
  {
    hide Inv;
    if !step.Start? {
      BatchOf(s, step.b);
    }
    match step
    case Start(b, misses) => StartKeepsInv(s, b, misses);
    case Claim(b) =>
      if s.batches[b].misses[|s.batches[b].took|] in s.running {
        JoinKeepsInv(s, b);
      } else {
        OwnKeepsInv(s, b);
      }
    case Release(b) => ReleaseKeepsInv(s, b);
    case Load(b) => PutKeepsInv(s, b, Do(s, step).batches[b]);
    case Loaded(b) => PutKeepsInv(s, b, Do(s, step).batches[b]);
    case Wait(b) => PutKeepsInv(s, b, Do(s, step).batches[b]);
    case Next(b) => PutKeepsInv(s, b, Do(s, step).batches[b]);
    case Cancel(b) => PutKeepsInv(s, b, Do(s, step).batches[b]);
  }

  lemma BatchOf<K>(s: State<K>, b: nat)
    requires Inv(s) && b in s.batches
    ensures BatchInv(s, b, s.batches[b])
  {
  }

  // ---- Runs ----

  ghost predicate Schedule<K>(s: State<K>, steps: seq<Step<K>>)
    decreases |steps|
  {
    steps == [] || (Enabled(s, steps[0]) && Schedule(Do(s, steps[0]), steps[1..]))
  }

  ghost function After<K>(s: State<K>, steps: seq<Step<K>>): State<K>
    requires Schedule(s, steps)
    decreases |steps|
  {
    if steps == [] then s else After(Do(s, steps[0]), steps[1..])
  }

  lemma {:induction false} RunKeepsInv<K>(s: State<K>, steps: seq<Step<K>>)
    requires Inv(s) && Schedule(s, steps)
    ensures Inv(After(s, steps))
    decreases |steps|
  {
    hide Inv, Do, Enabled;
    if steps != [] {
      StepKeepsInv(s, steps[0]);
      RunKeepsInv(Do(s, steps[0]), steps[1..]);
    }
  }

  /** In every reachable state a batch that waits, or is through, owns no registered flight: the release loop covered
      its whole slab. */
  lemma WaitingOwnsNothing<K>(steps: seq<Step<K>>, b: nat)
    requires Schedule(Init<K>(), steps)
    requires var s := After(Init<K>(), steps);
             b in s.batches && (s.batches[b].phase.Waiting? || s.batches[b].phase.Done?)
    ensures var s := After(Init<K>(), steps);
            && (forall f: nat | f < |s.flights| && s.flights[f].owner == b :: f in s.released)
            && (forall key | key in s.running :: s.running[key] < |s.flights| && s.flights[s.running[key]].owner != b)
  {
    RunKeepsInv(Init<K>(), steps);
    var s := After(Init<K>(), steps);
    forall f: nat | f < |s.flights| && s.flights[f].owner == b ensures f in s.released {
      assert FlightInv(s, f);
    }
    forall key | key in s.running ensures s.running[key] < |s.flights| && s.flights[s.running[key]].owner != b {
      assert RunningInv(s, key);
    }
  }

  /** Batch `a` is blocked: it waits for an unreleased flight of batch `b`. */
  ghost predicate WaitsFor<K>(s: State<K>, a: nat, b: nat) {
    && a in s.batches && s.batches[a].phase.Waiting? && s.batches[a].waited < |s.batches[a].joined|
    && var f := s.batches[a].joined[s.batches[a].waited];
       f < |s.flights| && s.flights[f].owner == b && f !in s.released
  }

  /** In every reachable state a blocked batch waits for one that is not itself waiting, so no chain of waits has a
      second link and none closes into a cycle, not even on the batch's own flight of a repeated key. */
  lemma NoWaitCycle<K>(steps: seq<Step<K>>, a: nat, b: nat)
    requires Schedule(Init<K>(), steps)
    requires WaitsFor(After(Init<K>(), steps), a, b)
    ensures a != b && forall c: nat :: !WaitsFor(After(Init<K>(), steps), b, c)
  {
    RunKeepsInv(Init<K>(), steps);
    var s := After(Init<K>(), steps);
    assert FlightInv(s, s.batches[a].joined[s.batches[a].waited]);
  }

  /** What a batch still has to do before flight number `j` of its slab is released. */
  ghost function ToGo<K>(batch: Batch<K>, j: nat): nat {
    match batch.phase
    case Claiming => (if |batch.took| < |batch.misses| then |batch.misses| - |batch.took| else 0) + j + 3
    case Loading => j + 2
    case Releasing(i) => if i <= j then j - i + 1 else 0
    case Waiting | Done => 0
  }

  /** The step a batch takes next until that flight is released. */
  ghost function NextOf<K>(batch: Batch<K>, b: nat): Step<K> {
    match batch.phase
    case Claiming => if |batch.took| < |batch.misses| then Claim(b) else Load(b)
    case Loading => Loaded(b)
    case Releasing(_) => Release(b)
    case Waiting | Done => Cancel(b)
  }

  lemma OwnStep<K>(s: State<K>, b: nat, j: nat)
    requires Inv(s) && b in s.batches && j < |s.batches[b].calls| && s.batches[b].calls[j] !in s.released
    ensures var step := NextOf(s.batches[b], b);
            && Enabled(s, step)
            && var batch := Do(s, step).batches[b];
               && j < |batch.calls| && batch.calls[j] == s.batches[b].calls[j]
               && ToGo(batch, j) < ToGo(s.batches[b], j)
  {
    assert BatchInv(s, b, s.batches[b]);
    assert FlightInv(s, s.batches[b].calls[j]);
  }

  /** Whoever owns a registered flight releases it by its own steps alone, whatever the other batches do not do: a
      blocked batch never depends on a second one. */
  lemma {:induction false} OwnerReleases<K>(s: State<K>, b: nat, j: nat) returns (steps: seq<Step<K>>)
    requires Inv(s) && b in s.batches && j < |s.batches[b].calls|
    ensures Schedule(s, steps) && (forall i | 0 <= i < |steps| :: steps[i].b == b)
    ensures s.batches[b].calls[j] in After(s, steps).released
    decreases ToGo(s.batches[b], j)
  {
    hide Inv, Do, Enabled, ToGo, NextOf;
    if s.batches[b].calls[j] in s.released {
      return [];
    }
    var step := NextOf(s.batches[b], b);
    NextIsOwn(s.batches[b], b);
    OwnStep(s, b, j);
    StepKeepsInv(s, step);
    BatchStays(s, step);
    var rest := OwnerReleases(Do(s, step), b, j);
    steps := [step] + rest;
    assert steps[1..] == rest;
  }

  lemma NextIsOwn<K>(batch: Batch<K>, b: nat)
    ensures NextOf(batch, b).b == b
  {
  }

  lemma BatchStays<K>(s: State<K>, step: Step<K>)
    requires Enabled(s, step)
    ensures step.b in Do(s, step).batches
  {
  }

  // ---- What a batch may rely on once it has waited ----

  /** Claims are made before anything else, and what was waited for is over. */
  ghost predicate Waited<K>(s: State<K>, batch: Batch<K>) {
    && (!batch.phase.Claiming? ==> |batch.took| == |batch.misses|)
    && (batch.phase.Claiming? || batch.phase.Loading? || batch.phase.Releasing? ==> batch.waited == 0)
    && batch.waited <= |batch.joined|
    && forall i | 0 <= i < batch.waited :: batch.joined[i] in s.released
  }

  lemma StepWaits<K>(s: State<K>, step: Step<K>)
    requires Enabled(s, step) && forall b | b in s.batches :: Waited(s, s.batches[b])
    ensures var s' := Do(s, step); forall b | b in s'.batches :: Waited(s', s'.batches[b])
  {
    var s' := Do(s, step);
    forall b | b in s'.batches ensures Waited(s', s'.batches[b]) {
      if b in s.batches {
        assert Waited(s, s.batches[b]);
      }
    }
  }

  lemma {:induction false} RunWaits<K>(s: State<K>, steps: seq<Step<K>>)
    requires Schedule(s, steps) && forall b | b in s.batches :: Waited(s, s.batches[b])
    ensures var s' := After(s, steps); forall b | b in s'.batches :: Waited(s', s'.batches[b])
    decreases |steps|
  {
    hide Do, Enabled, Waited;
    if steps != [] {
      StepWaits(s, steps[0]);
      RunWaits(Do(s, steps[0]), steps[1..]);
      assert After(s, steps) == After(Do(s, steps[0]), steps[1..]);
    }
  }

  /** In every reachable state a batch that has waited for all it joined finds every one of its misses served: by a
      flight of that very key, which is over. */
  lemma AllServed<K>(steps: seq<Step<K>>, b: nat)
    requires Schedule(Init<K>(), steps)
    requires var s := After(Init<K>(), steps);
             b in s.batches && s.batches[b].phase.Waiting? && s.batches[b].waited == |s.batches[b].joined|
    ensures var s := After(Init<K>(), steps);
            var batch := s.batches[b];
            && |batch.took| == |batch.misses|
            && forall i | 0 <= i < |batch.misses| ::
                 && batch.took[i] in s.released && batch.took[i] < |s.flights|
                 && s.flights[batch.took[i]].key == batch.misses[i]
  {
    RunKeepsInv(Init<K>(), steps);
    RunWaits(Init<K>(), steps);
    hide Schedule, After;
    var s := After(Init<K>(), steps);
    var batch := s.batches[b];
    assert BatchInv(s, b, batch) && Waited(s, batch);
    forall i | 0 <= i < |batch.misses| ensures batch.took[i] in s.released {
      if batch.took[i] in batch.calls {
        assert FlightInv(s, batch.took[i]);
      }
    }
  }
}
