/**
 One singleflight flight: an owner that resolves and releases it, and any number of joiners that wait for it. Every
 atomic access and every critical section of the registry lock is one step; steps interleave freely.
 */
module FlightWakeup {
  import opened Options

  /** What the owner leaves on the flight: val, err and ok together. */
  type Outcome = nat
  type Channel = nat

  datatype Owner =
    | Loading           // registered; the outcome may still change
    | Finishing         // released with joined set: about to store over
    | Reading           // over is stored: about to load waiter
    | Closing(ch: Channel)
    | Done

  datatype Joiner =
    | CheckFirst                // wait: the first load of over
    | LoadWaiter
    | Publish(own: Channel)   // about to compare-and-swap its own channel in
    | Reload                    // lost the swap
    | CheckAgain(ch: Channel)   // the second load of over
    | Parked(ch: Channel)
    | Returned(got: Outcome)
    | Canceled

  datatype State = State(
    registered: bool, joined: bool, over: bool, waiter: Option<Channel>, outcome: Outcome,
    owner: Owner, joiners: map<nat, Joiner>, closed: seq<Channel>, nextChannel: Channel)

  datatype Step =
    | Resolve(outcome: Outcome) | Release | StoreOver | ReadWaiter | Close
    | Join(j: nat) | First(j: nat) | Load(j: nat) | Swap(j: nat) | Again(j: nat) | Lost(j: nat)
    | Wake(j: nat) | Cancel(j: nat)

  ghost predicate Enabled(s: State, step: Step) {
    match step
    case Resolve(_) => s.owner.Loading?
    case Release => s.owner.Loading?
    case StoreOver => s.owner.Finishing?
    case ReadWaiter => s.owner.Reading?
    case Close => s.owner.Closing?
    case Join(j) => s.registered && j !in s.joiners
    case First(j) => j in s.joiners && s.joiners[j].CheckFirst?
    case Load(j) => j in s.joiners && s.joiners[j].LoadWaiter?
    case Swap(j) => j in s.joiners && s.joiners[j].Publish?
    case Lost(j) => j in s.joiners && s.joiners[j].Reload? && s.waiter.Some?
    case Again(j) => j in s.joiners && s.joiners[j].CheckAgain?
    case Wake(j) => j in s.joiners && s.joiners[j].Parked? && s.joiners[j].ch in s.closed
    case Cancel(j) => j in s.joiners && s.joiners[j].Parked?
  }

  ghost function Do(s: State, step: Step): State
    requires Enabled(s, step)
  {
    match step
    case Resolve(outcome) => s.(outcome := outcome)
    case Release => s.(registered := false, owner := if s.joined then Finishing else Done)
    case StoreOver => s.(over := true, owner := Reading)
    case ReadWaiter => s.(owner := if s.waiter.Some? then Closing(s.waiter.value) else Done)
    case Close => s.(closed := s.closed + [s.owner.ch], owner := Done)
    case Join(j) => s.(joined := true, joiners := s.joiners[j := CheckFirst])
    case First(j) => s.(joiners := s.joiners[j := if s.over then Returned(s.outcome) else LoadWaiter])
    case Load(j) =>
      if s.waiter.Some? then s.(joiners := s.joiners[j := CheckAgain(s.waiter.value)])
      else s.(joiners := s.joiners[j := Publish(s.nextChannel)], nextChannel := s.nextChannel + 1)
    case Swap(j) =>
      if s.waiter.None? then
        s.(waiter := Some(s.joiners[j].own), joiners := s.joiners[j := CheckAgain(s.joiners[j].own)])
      else s.(joiners := s.joiners[j := Reload])
    case Lost(j) => s.(joiners := s.joiners[j := CheckAgain(s.waiter.value)])
    case Again(j) =>
      s.(joiners := s.joiners[j := if s.over then Returned(s.outcome) else Parked(s.joiners[j].ch)])
    case Wake(j) => s.(joiners := s.joiners[j := Returned(s.outcome)])
    case Cancel(j) => s.(joiners := s.joiners[j := Canceled])
  }

  ghost function Init(outcome: Outcome): State {
    State(true, false, false, None, outcome, Loading, map[], [], 0)
  }

  // ---- The invariant ----

  ghost predicate OwnerInv(s: State) {
    && (s.registered <==> s.owner.Loading?)
    && (s.over ==> s.owner.Reading? || s.owner.Closing? || s.owner.Done?)
    && (s.owner.Reading? || s.owner.Closing? ==> s.over)
    && (s.owner.Finishing? ==> s.joined)
    && (s.owner.Done? && s.joined ==> s.over)
    && (s.owner.Closing? ==> s.waiter == Some(s.owner.ch))
    && (s.owner.Done? || s.closed == [])
    && (s.joiners != map[] ==> s.joined)
    && (forall c | c in s.closed :: s.waiter == Some(c))
    && |s.closed| <= 1
  }

  ghost predicate JoinerInv(s: State, p: Joiner) {
    match p
    case CheckAgain(ch) => s.waiter == Some(ch)
    case Reload => s.waiter.Some?
    case Parked(ch) =>
      // Had over been set before the second check, the joiner would not have parked; its channel was out by then.
      s.waiter == Some(ch) && (!s.over || s.owner.Reading? || s.owner == Closing(ch) || ch in s.closed)
    case Returned(got) => s.over && got == s.outcome
    case _ => true
  }

  ghost predicate Inv(s: State) {
    OwnerInv(s) && forall j | j in s.joiners :: JoinerInv(s, s.joiners[j])
  }

  lemma StepKeepsInv(s: State, step: Step)
    requires Inv(s) && Enabled(s, step)
    ensures Inv(Do(s, step))
  {
    var s' := Do(s, step);
    forall j | j in s'.joiners ensures JoinerInv(s', s'.joiners[j]) {
      if j in s.joiners {
        assert JoinerInv(s, s.joiners[j]);
      }
    }
    if step.Wake? {
      assert s.joiners[step.j].ch in s.closed;
    }
  }

  // ---- Runs ----

  ghost predicate Schedule(s: State, steps: seq<Step>)
    decreases |steps|
  {
    steps == [] || (Enabled(s, steps[0]) && Schedule(Do(s, steps[0]), steps[1..]))
  }

  ghost function After(s: State, steps: seq<Step>): State
    requires Schedule(s, steps)
    decreases |steps|
  {
    if steps == [] then s else After(Do(s, steps[0]), steps[1..])
  }

  lemma {:induction false} RunKeepsInv(s: State, steps: seq<Step>)
    requires Inv(s) && Schedule(s, steps)
    ensures Inv(After(s, steps))
    decreases |steps|
  {
    hide Inv, Do, Enabled;
    if steps != [] {
      StepKeepsInv(s, steps[0]);
      RunKeepsInv(Do(s, steps[0]), steps[1..]);
    }
  }

  /** Under every interleaving of the owner and any number of joiners: */
  lemma NoLostWakeUp(outcome: Outcome, steps: seq<Step>)
    requires Schedule(Init(outcome), steps)
    ensures var s := After(Init(outcome), steps);
            // once the release is through, whoever is parked can be woken,
            && (s.owner.Done? ==> forall j | j in s.joiners && s.joiners[j].Parked? :: Enabled(s, Wake(j)))
            // and whoever has not parked yet will see over set and not park,
            && (s.owner.Done? && s.joiners != map[] ==> s.over)
            // no channel is closed twice,
            && |s.closed| <= 1 && (s.owner.Closing? ==> s.closed == [])
            // a waiter that returned read the owner's final outcome,
            && (forall j | j in s.joiners && s.joiners[j].Returned? ::
                  s.joiners[j].got == s.outcome && !s.owner.Loading?)
            // and a flight released with joined unset never has a waiter.
            && (!s.registered && !s.joined ==> s.joiners == map[])
  {
    RunKeepsInv(Init(outcome), steps);
    var s := After(Init(outcome), steps);
    if s.owner.Done? {
      forall j | j in s.joiners && s.joiners[j].Parked? ensures Enabled(s, Wake(j)) {
        assert JoinerInv(s, s.joiners[j]);
      }
    }
    forall j | j in s.joiners && s.joiners[j].Returned? ensures s.joiners[j].got == s.outcome && !s.owner.Loading? {
      assert JoinerInv(s, s.joiners[j]);
    }
  }

  /** The outcome is final from the release on: no later step changes it. */
  lemma {:induction false} OutcomeIsFinal(s: State, steps: seq<Step>)
    requires Schedule(s, steps) && !s.owner.Loading?
    ensures After(s, steps).outcome == s.outcome && !After(s, steps).owner.Loading?
    decreases |steps|
  {
    if steps != [] {
      OutcomeIsFinal(Do(s, steps[0]), steps[1..]);
    }
  }

  /** The outcome the owner resolved last, by the schedule alone. */
  function Resolved(outcome: Outcome, steps: seq<Step>): Outcome
    decreases |steps|
  {
    if steps == [] then outcome
    else Resolved(if steps[0].Resolve? then steps[0].outcome else outcome, steps[1..])
  }

  lemma {:induction false} OutcomeIsResolved(s: State, steps: seq<Step>)
    requires Schedule(s, steps)
    ensures After(s, steps).outcome == Resolved(s.outcome, steps)
    decreases |steps|
  {
    if steps != [] {
      OutcomeIsResolved(Do(s, steps[0]), steps[1..]);
    }
  }

  /** Under every interleaving: whoever returned got what the owner resolved last. */
  lemma ReturnsWhatWasResolved(outcome: Outcome, steps: seq<Step>, j: nat)
    requires Schedule(Init(outcome), steps) && j in After(Init(outcome), steps).joiners
    ensures var p := After(Init(outcome), steps).joiners[j];
            p.Returned? ==> p.got == Resolved(outcome, steps)
  {
    NoLostWakeUp(outcome, steps);
    OutcomeIsResolved(Init(outcome), steps);
  }

  // ---- Nobody waits forever ----

  /** How many steps of its own a joiner needs once the release is through. */
  function Left(p: Joiner): nat {
    match p
    case CheckFirst => 1
    case LoadWaiter => 4
    case Publish(_) => 3
    case Reload => 2
    case CheckAgain(_) => 1
    case Parked(_) => 1
    case _ => 0
  }

  function Next(p: Joiner, j: nat): Step {
    match p
    case CheckFirst => First(j)
    case LoadWaiter => Load(j)
    case Publish(_) => Swap(j)
    case Reload => Lost(j)
    case CheckAgain(_) => Again(j)
    case _ => Wake(j)
  }

  lemma NextIsCloser(s: State, j: nat)
    requires Inv(s) && s.owner.Done? && j in s.joiners && !s.joiners[j].Returned? && !s.joiners[j].Canceled?
    ensures var step := Next(s.joiners[j], j);
            && Enabled(s, step)
            && var s' := Do(s, step);
               && s'.owner.Done? && j in s'.joiners && s'.outcome == s.outcome && !s'.joiners[j].Canceled?
               && Left(s'.joiners[j]) < Left(s.joiners[j])
  {
    assert JoinerInv(s, s.joiners[j]);
  }

  /** Once the release is through, every joiner that did not give up returns the outcome by at most four steps of its
      own, whatever the others do not do. */
  lemma {:induction false} JoinerReturns(s: State, j: nat) returns (steps: seq<Step>)
    requires Inv(s) && s.owner.Done? && j in s.joiners && !s.joiners[j].Canceled?
    ensures |steps| <= Left(s.joiners[j]) <= 4 && forall i | 0 <= i < |steps| :: steps[i] in Of(j)
    ensures Schedule(s, steps) && j in After(s, steps).joiners && After(s, steps).joiners[j] == Returned(s.outcome)
    decreases Left(s.joiners[j])
  {
    assert JoinerInv(s, s.joiners[j]);
    if s.joiners[j].Returned? {
      return [];
    }
    NextIsCloser(s, j);
    StepKeepsInv(s, Next(s.joiners[j], j));
    hide Inv, Enabled, Do;
    var step := Next(s.joiners[j], j);
    var rest := JoinerReturns(Do(s, step), j);
    steps := [step] + rest;
    assert steps[1..] == rest;
  }

  /** The steps of joiner `j`. */
  function Of(j: nat): set<Step> { {First(j), Load(j), Swap(j), Lost(j), Again(j), Wake(j)} }
}
