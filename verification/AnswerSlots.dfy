/**
 The answer slots of GetBatched: a caller and the worker serving it hold one reference each, and whoever drops the last
 one recycles the slot through the pool. Callers, workers, cancellation and stop interleave freely.
 */
module AnswerSlots {
  import opened Options

  /** A settled answer, tagged with the request it was settled for. */
  datatype Answer = Answer(request: nat, payload: nat)

  datatype Slot = Slot(value: Option<Answer>, done: bool, refs: int)

  datatype Caller =
    | Sending                    // holds both references until the request is queued
    | Waiting
    | Received                   // took the signal, has not read the slot yet
    | Took(got: Option<Answer>)  // read the slot, has not dropped its reference yet
    | Returned(got: Option<Answer>)
    | Left                       // on cancellation or stop

  datatype Worker = NotHanded | Queued | Written | Signaled | Finished

  /** What is left to do once the last reference is gone. */
  datatype Recycling = InUse | Draining | Clearing | Putting | Recycled

  datatype Request = Request(slot: nat, caller: Caller, worker: Worker, recycling: Recycling) {
    predicate Active() { !recycling.Recycled? }

    /** The references this request accounts for. */
    function Refs(): int {
      (if caller.Sending? then 2 else if caller.Waiting? || caller.Received? || caller.Took? then 1 else 0)
      + (if worker.Queued? || worker.Written? || worker.Signaled? then 1 else 0)
    }
  }

  datatype State = State(slots: map<nat, Slot>, pool: set<nat>, requests: map<nat, Request>)

  datatype Step =
    | Acquire(r: nat, slot: nat) | Send(r: nat) | Abort(r: nat)
    | Receive(r: nat) | Read(r: nat) | CallerDrop(r: nat) | Leave(r: nat)
    | Write(r: nat, payload: nat) | Signal(r: nat) | WorkerDrop(r: nat)
    | Drain(r: nat) | Clear(r: nat) | Put(r: nat)

  ghost predicate Enabled(s: State, step: Step) {
    match step
    case Acquire(r, slot) => r !in s.requests && (slot in s.pool || slot !in s.slots)
    case _ =>
      step.r in s.requests && s.requests[step.r].slot in s.slots &&
      var q := s.requests[step.r];
      match step
      case Send(_) => q.caller.Sending?
      case Abort(_) => q.caller.Sending?
      case Receive(_) => q.caller.Waiting? && s.slots[q.slot].done
      case Read(_) => q.caller.Received?
      case CallerDrop(_) => q.caller.Took?
      case Leave(_) => q.caller.Waiting?
      case Write(_, _) => q.worker.Queued?
      case Signal(_) => q.worker.Written?
      case WorkerDrop(_) => q.worker.Signaled?
      case Drain(_) => q.recycling.Draining?
      case Clear(_) => q.recycling.Clearing?
      case Put(_) => q.recycling.Putting?
      case _ => false
  }

  /** Drops `n` references; the one that drops the last has the slot to recycle. */
  ghost function Drop(s: State, r: nat, q: Request, n: int): State
    requires q.slot in s.slots
  {
    var slot := s.slots[q.slot];
    var left := slot.refs - n;
    s.(slots := s.slots[q.slot := slot.(refs := left)],
       requests := s.requests[r := if left == 0 then q.(recycling := Draining) else q])
  }

  ghost function Do(s: State, step: Step): State
    requires Enabled(s, step)
  {
    var r := step.r;
    if step.Acquire? then
      var slot := if step.slot in s.slots then s.slots[step.slot] else Slot(None, false, 0);
      State(s.slots[step.slot := slot.(refs := 2)], s.pool - {step.slot},
            s.requests[r := Request(step.slot, Sending, NotHanded, InUse)])
    else
      var q := s.requests[r];
      var slot := s.slots[q.slot];
      match step
      case Send(_) => s.(requests := s.requests[r := q.(caller := Waiting, worker := Queued)])
      case Abort(_) => Drop(s, r, q.(caller := Left), 2)
      case Receive(_) =>
        s.(slots := s.slots[q.slot := slot.(done := false)], requests := s.requests[r := q.(caller := Received)])
      case Read(_) => s.(requests := s.requests[r := q.(caller := Took(slot.value))])
      case CallerDrop(_) => Drop(s, r, q.(caller := Returned(q.caller.got)), 1)
      case Leave(_) => Drop(s, r, q.(caller := Left), 1)
      case Write(_, payload) =>
        s.(slots := s.slots[q.slot := slot.(value := Some(Answer(r, payload)))],
          requests := s.requests[r := q.(worker := Written)])
      case Signal(_) =>
        s.(slots := s.slots[q.slot := slot.(done := true)], requests := s.requests[r := q.(worker := Signaled)])
      case WorkerDrop(_) => Drop(s, r, q.(worker := Finished), 1)
      case Drain(_) =>
        s.(slots := s.slots[q.slot := slot.(done := false)], requests := s.requests[r := q.(recycling := Clearing)])
      case Clear(_) =>
        s.(slots := s.slots[q.slot := slot.(value := None)], requests := s.requests[r := q.(recycling := Putting)])
      case Put(_) => s.(pool := s.pool + {q.slot}, requests := s.requests[r := q.(recycling := Recycled)])
  }

  ghost function Init(): State { State(map[], {}, map[]) }

  // ---- The invariant ----

  ghost predicate RequestInv(s: State, r: nat, q: Request) {
    && q.slot in s.slots && (!q.Active() ==> q.Refs() == 0)
    && (q.Active() ==>
          var slot := s.slots[q.slot];
          && q.slot !in s.pool && slot.refs == q.Refs()
          && (q.recycling.InUse? <==> slot.refs > 0)
          && (q.caller.Sending? <==> q.worker.NotHanded? && q.recycling.InUse?)
          && (slot.done ==>
                (q.worker.Signaled? || q.worker.Finished?) && !q.recycling.Clearing? && !q.recycling.Putting?)
          && (q.caller.Received? ==> q.worker.Signaled? || q.worker.Finished?)
          && (q.caller.Waiting? && (q.worker.Signaled? || q.worker.Finished?) ==> slot.done)
          && (q.recycling.Putting? ==> slot.value == None)
          && (&& (q.worker.Written? || q.worker.Signaled? || q.worker.Finished?)
              && (q.recycling.InUse? || q.recycling.Draining?) ==>
                slot.value.Some? && slot.value.value.request == r))
    && (q.caller.Took? || q.caller.Returned? ==>
          && q.caller.got.Some? && q.caller.got.value.request == r
          && (q.worker.Signaled? || q.worker.Finished?))
  }

  ghost predicate Inv(s: State) {
    && (forall r | r in s.requests :: RequestInv(s, r, s.requests[r]))
    && (forall r, t | r in s.requests && t in s.requests && s.requests[r].Active() && s.requests[t].Active()
                      && s.requests[r].slot == s.requests[t].slot :: r == t)
    && (forall p | p in s.pool :: p in s.slots && s.slots[p].refs == 0 && !s.slots[p].done && s.slots[p].value == None)
    && (forall p | p in s.slots :: p in s.pool || Used(s, p))
  }

  /** Some request still has the slot, or has it to recycle. */
  ghost predicate Used(s: State, p: nat) {
    exists r :: r in s.requests && s.requests[r].slot == p && s.requests[r].Active()
  }

  /** What the actor of a step relies on. */
  ghost predicate Ready(s: State, step: Step) {
    && (step.r in s.requests ==> RequestInv(s, step.r, s.requests[step.r]))
    && (step.Acquire? && step.slot in s.pool ==>
          step.slot in s.slots && s.slots[step.slot].refs == 0 && !s.slots[step.slot].done)
  }

  lemma IsReady(s: State, step: Step)
    requires Inv(s)
    ensures Ready(s, step)
  {
    hide RequestInv, Used;
  }

  /** The request that takes the step. */
  lemma ActorKept(s: State, step: Step)
    requires Ready(s, step) && Enabled(s, step)
    ensures step.r in Do(s, step).requests && RequestInv(Do(s, step), step.r, Do(s, step).requests[step.r])
  {
  }

  /** Any other request: its slot is another one. */
  lemma BystanderKept(s: State, step: Step, r: nat)
    requires Ready(s, step) && Enabled(s, step) && r in s.requests && r != step.r && RequestInv(s, r, s.requests[r])
    requires step.r in s.requests && s.requests[r].Active() && s.requests[step.r].Active() ==>
               s.requests[r].slot != s.requests[step.r].slot
    ensures r in Do(s, step).requests && RequestInv(Do(s, step), r, Do(s, step).requests[r])
  {
  }

  lemma PoolKept(s: State, step: Step, p: nat)
    requires Inv(s) && Enabled(s, step) && p in Do(s, step).pool
    ensures var s' := Do(s, step);
            p in s'.slots && s'.slots[p].refs == 0 && !s'.slots[p].done && s'.slots[p].value == None
  {
    hide Used;
    if step.r in s.requests {
      assert RequestInv(s, step.r, s.requests[step.r]);
    }
  }

  /** The slot handed to a new request is nobody else's. */
  lemma SharingKept(s: State, step: Step, r: nat, t: nat)
    requires Inv(s) && Enabled(s, step)
    requires var s' := Do(s, step);
             && r in s'.requests && t in s'.requests && s'.requests[r].Active() && s'.requests[t].Active()
             && s'.requests[r].slot == s'.requests[t].slot
    ensures r == t
  {
    hide Used;
    forall x | x in {r, t} && x in s.requests ensures RequestInv(s, x, s.requests[x]) {
    }
  }

  /** No slot is lost: it is in the pool, or a request will put it back. */
  lemma UsedKept(s: State, step: Step, p: nat)
    requires Inv(s) && Enabled(s, step) && p in Do(s, step).slots
    ensures p in Do(s, step).pool || Used(Do(s, step), p)
  {
    hide RequestInv;
    var s' := Do(s, step);
    if p in s.slots && p !in s.pool {
      var r :| r in s.requests && s.requests[r].slot == p && s.requests[r].Active();
      assert r in s'.requests && s'.requests[r].slot == p;
    } else if p !in s'.pool {
      assert s'.requests[step.r].slot == p;
    }
  }

  lemma StepKeepsInv(s: State, step: Step)
    requires Inv(s) && Enabled(s, step)
    ensures Inv(Do(s, step))
  {
    hide RequestInv, Used;
    var s' := Do(s, step);
    forall p | p in s'.pool
      ensures p in s'.slots && s'.slots[p].refs == 0 && !s'.slots[p].done && s'.slots[p].value == None
    {
      PoolKept(s, step, p);
    }
    forall r, t | r in s'.requests && t in s'.requests && s'.requests[r].Active() && s'.requests[t].Active()
                  && s'.requests[r].slot == s'.requests[t].slot
      ensures r == t
    {
      SharingKept(s, step, r, t);
    }
    forall p | p in s'.slots ensures p in s'.pool || Used(s', p) {
      UsedKept(s, step, p);
    }
    IsReady(s, step);
    forall r | r in s'.requests ensures RequestInv(s', r, s'.requests[r]) {
      if r == step.r {
        ActorKept(s, step);
      } else {
        BystanderKept(s, step, r);
      }
    }
  }

  // ---- Runs ----

  ghost predicate Schedule(s: State, steps: seq<Step>)
    decreases |steps|
  {
    steps == [] || (Enabled(s, steps[0]) && Schedule(Do(s, steps[0]), steps[1..]))
  }

  ghost function After(s: State, steps: seq<Step>): State
    requires Schedule(s, steps)
    decreases |steps|
  {
    if steps == [] then s else After(Do(s, steps[0]), steps[1..])
  }

  lemma {:induction false} RunKeepsInv(s: State, steps: seq<Step>)
    requires Inv(s) && Schedule(s, steps)
    ensures Inv(After(s, steps))
    decreases |steps|
  {
    hide Inv, Do, Enabled;
    if steps != [] {
      StepKeepsInv(s, steps[0]);
      RunKeepsInv(Do(s, steps[0]), steps[1..]);
    }
  }

  // ---- What was settled, by the schedule alone ----

  /** The payload each request was settled with, `w` before the steps. */
  function SettledFrom(w: map<nat, nat>, steps: seq<Step>): map<nat, nat>
    decreases |steps|
  {
    if steps == [] then w else SettledFrom(Settles(w, steps[0]), steps[1..])
  }

  function Settles(w: map<nat, nat>, step: Step): map<nat, nat> {
    if step.Write? then w[step.r := step.payload] else w
  }

  /** Whoever holds or took an answer has the one its request was settled with. */
  ghost predicate Told(s: State, w: map<nat, nat>, r: nat)
    requires r in s.requests
  {
    var q := s.requests[r];
    && (q.Active() && (q.worker.Written? || q.worker.Signaled? || q.worker.Finished?)
        && (q.recycling.InUse? || q.recycling.Draining?) ==>
          q.slot in s.slots && r in w && s.slots[q.slot].value == Some(Answer(r, w[r])))
    && (q.caller.Took? || q.caller.Returned? ==> r in w && q.caller.got == Some(Answer(r, w[r])))
  }

  lemma StepTells(s: State, w: map<nat, nat>, step: Step)
    requires Inv(s) && Enabled(s, step) && forall r | r in s.requests :: Told(s, w, r)
    ensures var s' := Do(s, step);
            forall r | r in s'.requests :: Told(s', Settles(w, step), r)
  {
    hide RequestInv, Told, Used, Settles;
    var s' := Do(s, step);
    forall r | r in s'.requests ensures Told(s', Settles(w, step), r) {
      if r == step.r {
        ActorTells(s, w, step);
      } else {
        assert r in s.requests;
        BystanderTells(s, w, step, r);
      }
    }
  }

  lemma ActorTells(s: State, w: map<nat, nat>, step: Step)
    requires Inv(s) && Enabled(s, step) && (step.r in s.requests ==> Told(s, w, step.r))
    ensures step.r in Do(s, step).requests && Told(Do(s, step), Settles(w, step), step.r)
  {
    hide Used;
    if step.r in s.requests {
      assert RequestInv(s, step.r, s.requests[step.r]);
    }
  }

  /** Only its own steps touch what a request sees. */
  lemma BystanderTells(s: State, w: map<nat, nat>, step: Step, r: nat)
    requires Inv(s) && Enabled(s, step) && r != step.r && r in s.requests && Told(s, w, r)
    ensures r in Do(s, step).requests && Told(Do(s, step), Settles(w, step), r)
  {
    hide Used;
    assert RequestInv(s, r, s.requests[r]);
    if step.r in s.requests {
      assert RequestInv(s, step.r, s.requests[step.r]);
    }
  }

  lemma {:induction false} RunTells(s: State, w: map<nat, nat>, steps: seq<Step>)
    requires Inv(s) && Schedule(s, steps) && forall r | r in s.requests :: Told(s, w, r)
    ensures var s' := After(s, steps);
            forall r | r in s'.requests :: Told(s', SettledFrom(w, steps), r)
    decreases |steps|
  {
    hide Inv, Do, Enabled, Told, Settles;
    if steps != [] {
      StepKeepsInv(s, steps[0]);
      StepTells(s, w, steps[0]);
      RunTells(Do(s, steps[0]), Settles(w, steps[0]), steps[1..]);
      assert After(s, steps) == After(Do(s, steps[0]), steps[1..]);
    }
  }

  /** In every interleaving: a caller that returns an answer returns the one its own request was settled with; a pooled
      slot has no reference, no pending signal, no value and no user left; no slot is lost; and no two requests in
      flight share one. */
  lemma OwnAnswerOnly(steps: seq<Step>)
    requires Schedule(Init(), steps)
    ensures var s, settled := After(Init(), steps), SettledFrom(map[], steps);
            && (forall r | r in s.requests && s.requests[r].caller.Returned? ::
                  r in settled && s.requests[r].caller.got == Some(Answer(r, settled[r])))
            && (forall p | p in s.pool ::
                  && p in s.slots && s.slots[p] == Slot(None, false, 0)
                  && (forall r | r in s.requests && s.requests[r].slot == p :: s.requests[r].Refs() == 0))
            && (forall p | p in s.slots :: p in s.pool || Used(s, p))
            && (forall r, t | r in s.requests && t in s.requests && s.requests[r].Refs() > 0 && s.requests[t].Refs() > 0
                              && s.requests[r].slot == s.requests[t].slot :: r == t)
  {
    hide Used;
    RunKeepsInv(Init(), steps);
    RunTells(Init(), map[], steps);
    var s := After(Init(), steps);
    forall r | r in s.requests ensures RequestInv(s, r, s.requests[r]) && Told(s, SettledFrom(map[], steps), r) {
    }
  }

  /** In every interleaving: once the worker has signaled, a caller that still waits can receive. */
  lemma NobodyLeftWaiting(steps: seq<Step>, r: nat)
    requires Schedule(Init(), steps) && r in After(Init(), steps).requests
    ensures var s := After(Init(), steps);
            s.requests[r].caller.Waiting? && (s.requests[r].worker.Signaled? || s.requests[r].worker.Finished?) ==>
              Enabled(s, Receive(r))
  {
    hide Used;
    RunKeepsInv(Init(), steps);
    var s := After(Init(), steps);
    assert RequestInv(s, r, s.requests[r]);
  }
}
