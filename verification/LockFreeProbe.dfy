/**
 A lock-free probe among writers. The shard's writers work step by step under the mutex: an item goes live before its
 overflow counter is raised, and dies before the counter is lowered. A reader walks the table meanwhile, one atomic
 load at a time, for a key that stays in the cache. A rebuild swaps the table; the reader finishes on the old one.
 A slot's meta word and its copied entry are one value at the moment a snapshot is accepted, which is what
 `ItemSeqlock` establishes; a refused snapshot sends the reader back to the meta word.
 */
module LockFreeProbes {
  import opened SlotTable

  /** The counter update that the writer holding the mutex still owes. */
  datatype Due = Nothing | Note(p: nat, home: nat) | Forget(p: nat, home: nat)

  /** One table. `at` is where the sought key sits in it. */
  datatype Table<K, V> = Table(slots: seq<Slot<K, V>>, over: seq<nat>, due: Due, at: nat)

  datatype Reader<V> =
    | Idle
    | Edge(pos: nat)   // about to test for the end of the home group
    | Look(pos: nat)   // about to load the slot's meta word
    | Match(pos: nat)  // the tag agreed: about to copy and validate the entry
    | Found(i: nat, value: V)  // the key's slot and the value it held there
    | Missed

  /** A reader that started before the latest rebuild is on the superseded table, which nobody writes. */
  datatype State<K, V> = State(cur: Table<K, V>, past: Table<K, V>, stale: bool, reader: Reader<V>)

  datatype Step<K, V> =
    | Publish(p: nat, key: K, value: V, off: nat) | NoteDisplaced
    | Kill(p: nat) | ForgetDisplaced
    | MakeFree(p: nat)
    | Overwrite(p: nat, value: V, off: nat)
    | Rebuild(next: Table<K, V>)
    | Start | TestEdge | LoadMeta | Compare | Retry
  {
    predicate Reads() { TestEdge? || LoadMeta? || Compare? }
  }

  function View<K, V>(s: State<K, V>): Table<K, V> { if s.stale then s.past else s.cur }

  function GroupEnd(home: nat): nat { GROUP * (Group(home) + 1) }

  /** The counters once the owed update is made. */
  function Settled<K, V>(t: Table<K, V>): seq<nat> {
    match t.due
    case Nothing => t.over
    case Note(p, home) => Noted(t.over, home, p)
    case Forget(p, home) => Forgotten(t.over, home, p)
  }

  /** The key sits in slot `at`. */
  predicate Sits<K(==), V>(t: Table<K, V>, key: K) {
    t.at < |t.slots| && t.slots[t.at].Live? && t.slots[t.at].key == key
  }

  /** The owed update concerns another slot, and there is something to give back. */
  ghost predicate Owes<K, V>(t: Table<K, V>, hash: K -> nat) {
    match t.due
    case Nothing => true
    case Note(p, home) =>
      p < |t.slots| && p != t.at && t.slots[p].Live? && home == Home(hash(t.slots[p].key), |t.slots|)
    case Forget(p, home) =>
      Group(home) < |t.over| && (Group(home) != Group(p) ==> t.over[Group(home)] > 0)
  }

  ghost predicate TableOk<K, V>(t: Table<K, V>, hash: K -> nat, key: K) {
    TableInv(t.slots, Settled(t), hash) && Sits(t, key) && Owes(t, hash)
  }

  // ---- The steps ----

  /** When a step can be taken. Writers hold the mutex one after another and never touch the sought key's slot but to
      overwrite it. */
  ghost predicate Enabled<K(!new), V>(s: State<K, V>, hash: K -> nat, key: K, step: Step<K, V>) {
    var t := s.cur;
    match step
    case Publish(p, k, _, _) =>
      && t.due.Nothing? && p < |t.slots| && k != key && !t.slots[p].Live?
      && (t.slots[p].Tomb? ==> t.slots[p].key == k)
      && (forall i | 0 <= i < |t.slots| && i != p && t.slots[i].Keyed() :: t.slots[i].key != k)
      && Reaches(t.slots, Home(hash(k), |t.slots|), p)
      && (t.slots[p].Empty? ==> 4 * (|UsedSet(t.slots)| + 1) <= 3 * |t.slots|)
    case NoteDisplaced => t.due.Note?
    case Kill(p) => t.due.Nothing? && p < |t.slots| && t.slots[p].Live? && p != t.at
    case ForgetDisplaced => t.due.Forget?
    case MakeFree(p) => t.due.Nothing? && p < |t.slots| && t.slots[p].Dead()
    case Overwrite(p, _, _) => t.due.Nothing? && p < |t.slots| && t.slots[p].Live?
    case Rebuild(next) =>
      && t.due.Nothing? && next.due.Nothing? && TableOk(next, hash, key)
      && Unique(t.slots) && Contents(next.slots) == Contents(t.slots)
    case Start => s.reader.Idle?
    case TestEdge => s.reader.Edge?
    case LoadMeta => s.reader.Look?
    case Compare => s.reader.Match? && |View(s).slots| > 0 && View(s).slots[Wrap(s.reader.pos, |View(s).slots|)].Live?
    case Retry => s.reader.Match?
  }

  /** A writer's step on the current table. */
  ghost function Written<K(!new), V>(s: State<K, V>, hash: K -> nat, key: K, step: Step<K, V>): Table<K, V>
    requires Inv(s, hash, key) && Enabled(s, hash, key, step)
  {
    var t := s.cur;
    match step
    case Publish(p, k, value, off) =>
      t.(slots := t.slots[p := Live(k, value, TagOf(hash(k)), off)], due := Note(p, Home(hash(k), |t.slots|)))
    case NoteDisplaced => t.(over := Noted(t.over, t.due.home, t.due.p), due := Nothing)
    case Kill(p) =>
      t.(slots := t.slots[p := Tomb(t.slots[p].key, t.slots[p].tag)],
         due := Forget(p, Home(hash(t.slots[p].key), |t.slots|)))
    case ForgetDisplaced => t.(over := Forgotten(t.over, t.due.home, t.due.p), due := Nothing)
    case MakeFree(p) => t.(slots := t.slots[p := Free])
    case Overwrite(p, value, off) => t.(slots := t.slots[p := t.slots[p].(value := value, expireOff := off)])
    case _ => t
  }

  /** A reader's step on the table it probes. */
  ghost function Probed<K, V>(t: Table<K, V>, hash: K -> nat, key: K, rd: Reader<V>): (rd': Reader<V>)
    requires TableOk(t, hash, key) && (rd.Edge? || rd.Look? || rd.Match?)
    ensures !rd'.Idle?
  {
    SizedIsWholeGroups(|t.slots|);
    var home := Home(hash(key), |t.slots|);
    var slot := t.slots[Wrap(rd.pos, |t.slots|)];
    match rd
    case Edge(pos) => if pos == GroupEnd(home) && t.over[Group(home)] == 0 then Missed else Look(pos)
    case Look(pos) =>
      if slot.Empty? then Missed
      else if slot.Live? && slot.tag == TagOf(hash(key)) then Match(pos)
      else Edge(pos + 1)
    case Match(pos) => if slot.Live? && slot.key == key then Found(Wrap(pos, |t.slots|), slot.value) else Edge(pos + 1)
  }

  ghost function Do<K(!new), V>(s: State<K, V>, hash: K -> nat, key: K, step: Step<K, V>): State<K, V>
    requires Inv(s, hash, key) && Enabled(s, hash, key, step)
  {
    match step
    case Rebuild(next) =>
      if s.reader.Idle? || s.stale then s.(cur := next) else s.(cur := next, past := s.cur, stale := true)
    case Start => s.(reader := Edge(Home(hash(key), |s.cur.slots|)))
    case TestEdge => s.(reader := Probed(View(s), hash, key, s.reader))
    case LoadMeta => s.(reader := Probed(View(s), hash, key, s.reader))
    case Compare => s.(reader := Probed(View(s), hash, key, s.reader))
    case Retry => s.(reader := Look(s.reader.pos))
    case _ => s.(cur := Written(s, hash, key, step))
  }

  // ---- The invariant ----

  /** The probe position at which the key sits. */
  function Target<K(==), V>(t: Table<K, V>, hash: K -> nat, key: K): nat
    requires Sits(t, key)
  {
    var home := Home(hash(key), |t.slots|);
    home + Steps(home, t.at, |t.slots|)
  }

  /** The reader has not passed the key, and has not given up. */
  ghost predicate OnTrack<K, V>(t: Table<K, V>, hash: K -> nat, key: K, rd: Reader<V>)
    requires Sits(t, key)
  {
    match rd
    case Idle => true
    case Found(i, _) => i == t.at
    case Missed => false
    case _ => Home(hash(key), |t.slots|) <= rd.pos <= Target(t, hash, key)
  }

  ghost predicate Inv<K, V>(s: State<K, V>, hash: K -> nat, key: K) {
    && TableOk(s.cur, hash, key)
    && (s.stale ==> TableOk(s.past, hash, key) && !s.reader.Idle?)
    && OnTrack(View(s), hash, key, s.reader)
  }

  // ---- What a probe can rely on at any moment ----

  lemma GroupsFit(home: nat, n: nat, groups: nat)
    requires home < n && groups * GROUP == n
    ensures Group(home) < groups
  {
  }

  /** Whatever is owed, the counter of a displaced key's group is up. */
  lemma CounterIsUp<K, V>(t: Table<K, V>, hash: K -> nat, key: K)
    requires TableOk(t, hash, key)
    requires Group(t.at) != Group(Home(hash(key), |t.slots|))
    ensures Group(Home(hash(key), |t.slots|)) < |t.over| && t.over[Group(Home(hash(key), |t.slots|))] > 0
  {
    var g := Group(Home(hash(key), |t.slots|));
    GroupsFit(Home(hash(key), |t.slots|), |t.slots|, |Settled(t)|);
    var d := Displaced(t.slots, hash, g);
    assert t.at in d;
    if t.due.Note? && t.due.p in d {
      assert {t.at, t.due.p} <= d;
      SubsetSize({t.at, t.due.p}, d);
    } else {
      SubsetSize({t.at}, d);
    }
  }

  /** In its own home group the key sits at or after its home, before the group's edge. */
  lemma BeforeTheEdge<K, V>(t: Table<K, V>, hash: K -> nat, key: K)
    requires TableOk(t, hash, key)
    requires Group(t.at) == Group(Home(hash(key), |t.slots|))
    ensures Target(t, hash, key) < GroupEnd(Home(hash(key), |t.slots|))
  {
    NoWrapIntoOwnGroup(t.slots, Settled(t), hash, t.at);
  }

  /** One load never makes the reader give up or pass the key. */
  lemma ProbedOnTrack<K, V>(t: Table<K, V>, hash: K -> nat, key: K, rd: Reader<V>)
    requires TableOk(t, hash, key) && (rd.Edge? || rd.Look? || rd.Match?) && OnTrack(t, hash, key, rd)
    ensures OnTrack(t, hash, key, Probed(t, hash, key, rd))
  {
    var home, n := Home(hash(key), |t.slots|), |t.slots|;
    assert Placed(t.slots, hash, t.at);
    match rd
    case Edge(pos) =>
      if pos == GroupEnd(home) {
        if Group(t.at) == Group(home) {
          BeforeTheEdge(t, hash, key);
        } else {
          CounterIsUp(t, hash, key);
        }
      }
    case Look(pos) =>
      if pos < Target(t, hash, key) {
        assert Occupied(t.slots, pos);
      }
    case Match(pos) =>
  }

  /** No writer's step moves the key, and each leaves the counters owing at most its own update. */
  lemma WrittenKeepsTable<K(!new), V>(s: State<K, V>, hash: K -> nat, key: K, step: Step<K, V>)
    requires Inv(s, hash, key) && Enabled(s, hash, key, step) && !step.Rebuild?
    ensures var t := Written(s, hash, key, step);
            TableOk(t, hash, key) && t.at == s.cur.at && |t.slots| == |s.cur.slots|
  {
    var t := s.cur;
    match step
    case Publish(p, k, value, off) => PublishKeepsTable(t.slots, t.over, hash, p, k, value, off);
    case Kill(p) => KillKeepsTable(t.slots, t.over, hash, p, Tomb(t.slots[p].key, t.slots[p].tag));
    case MakeFree(p) => FreeKeepsTable(t.slots, t.over, hash, p);
    case Overwrite(p, value, off) => OverwriteKeepsTable(t.slots, t.over, hash, p, value, off);
    case _ =>
  }

  lemma StepKeepsInv<K(!new), V>(s: State<K, V>, hash: K -> nat, key: K, step: Step<K, V>)
    requires Inv(s, hash, key) && Enabled(s, hash, key, step)
    ensures Inv(Do(s, hash, key, step), hash, key)
  {
    hide TableInv, Owes, Settled, Probed, Written, Steps, Home;
    if step.Reads() {
      ProbedOnTrack(View(s), hash, key, s.reader);
    } else if !step.Rebuild? {
      WrittenKeepsTable(s, hash, key, step);
    }
  }

  // ---- Whole runs ----

  ghost predicate Legal<K(!new), V>(s: State<K, V>, hash: K -> nat, key: K, steps: seq<Step<K, V>>)
    requires Inv(s, hash, key)
    decreases |steps|
  {
    steps == [] ||
    (Enabled(s, hash, key, steps[0])
     && (StepKeepsInv(s, hash, key, steps[0]); Legal(Do(s, hash, key, steps[0]), hash, key, steps[1..])))
  }

  ghost function After<K(!new), V>(s: State<K, V>, hash: K -> nat, key: K, steps: seq<Step<K, V>>): (s': State<K, V>)
    requires Inv(s, hash, key) && Legal(s, hash, key, steps)
    ensures Inv(s', hash, key)
    decreases |steps|
  {
    if steps == [] then s
    else StepKeepsInv(s, hash, key, steps[0]); After(Do(s, hash, key, steps[0]), hash, key, steps[1..])
  }

  /** How many loads the reader can still need, snapshots refused aside. */
  ghost function Left<K, V>(t: Table<K, V>, hash: K -> nat, key: K, rd: Reader<V>): nat
    requires Sits(t, key) && OnTrack(t, hash, key, rd)
  {
    match rd
    case Edge(pos) => 3 * (Target(t, hash, key) - pos) + 3
    case Look(pos) => 3 * (Target(t, hash, key) - pos) + 2
    case Match(pos) => 3 * (Target(t, hash, key) - pos) + 1
    case _ => 0
  }

  function Loads<K, V>(steps: seq<Step<K, V>>): nat {
    if steps == [] then 0 else (if steps[0].Reads() then 1 else 0) + Loads(steps[1..])
  }

  function Refusals<K, V>(steps: seq<Step<K, V>>): nat {
    if steps == [] then 0 else (if steps[0].Retry? then 1 else 0) + Refusals(steps[1..])
  }

  /** Each load brings the reader closer, whatever the writers have done. */
  lemma ProbedIsCloser<K, V>(t: Table<K, V>, hash: K -> nat, key: K, rd: Reader<V>)
    requires TableOk(t, hash, key) && (rd.Edge? || rd.Look? || rd.Match?) && OnTrack(t, hash, key, rd)
    ensures OnTrack(t, hash, key, Probed(t, hash, key, rd))
    ensures Left(t, hash, key, Probed(t, hash, key, rd)) < Left(t, hash, key, rd)
  {
    ProbedOnTrack(t, hash, key, rd);
    hide TableInv, Owes, Settled, Home, Steps;
  }

  lemma StepIsCloser<K(!new), V>(s: State<K, V>, hash: K -> nat, key: K, step: Step<K, V>)
    requires Inv(s, hash, key) && Enabled(s, hash, key, step) && !s.reader.Idle?
    ensures var s' := Do(s, hash, key, step);
            && Inv(s', hash, key) && !s'.reader.Idle?
            && Left(View(s'), hash, key, s'.reader) + (if step.Reads() then 1 else 0)
               <= Left(View(s), hash, key, s.reader) + (if step.Retry? then 1 else 0)
  {
    StepKeepsInv(s, hash, key, step);
    hide TableInv, Owes, Settled, Probed, Written, Steps, Home;
    if step.Reads() {
      ProbedIsCloser(View(s), hash, key, s.reader);
    } else if !step.Rebuild? {
      WrittenKeepsTable(s, hash, key, step);
    }
  }

  /** Over every interleaving with the writers a probe under way never misses the key, and it has found it once it has
      made as many loads as the distance allows, one more for each snapshot refused. */
  lemma {:induction false} ProbeFinds<K(!new), V>(s: State<K, V>, hash: K -> nat, key: K, steps: seq<Step<K, V>>)
    requires Inv(s, hash, key) && !s.reader.Idle? && Legal(s, hash, key, steps)
    ensures var s' := After(s, hash, key, steps);
            && !s'.reader.Missed? && !s'.reader.Idle?
            && (s'.reader.Found? ==> s'.reader.i == View(s').at)
            && Left(View(s'), hash, key, s'.reader) + Loads(steps)
               <= Left(View(s), hash, key, s.reader) + Refusals(steps)
            && (Loads(steps) >= Left(View(s), hash, key, s.reader) + Refusals(steps) ==> s'.reader.Found?)
    decreases |steps|
  {
    hide TableInv, Owes, Settled, Target, Do, Enabled;
    if steps != [] {
      StepIsCloser(s, hash, key, steps[0]);
      ProbeFinds(Do(s, hash, key, steps[0]), hash, key, steps[1..]);
    }
  }

  /** From the table as any writer left it, a reader that starts now needs at most three loads a slot. */
  lemma StartedProbe<K(!new), V>(s: State<K, V>, hash: K -> nat, key: K)
    requires Inv(s, hash, key) && s.reader.Idle?
    ensures Enabled(s, hash, key, Step<K, V>.Start)
    ensures var s' := Do(s, hash, key, Step<K, V>.Start);
            && Inv(s', hash, key) && !s'.reader.Idle?
            && Left(View(s'), hash, key, s'.reader)
               == 3 * (Steps(Home(hash(key), |s.cur.slots|), s.cur.at, |s.cur.slots|) + 1)
  {
    StepKeepsInv(s, hash, key, Step<K, V>.Start);
  }

  /** The slot whose tag agreed has died since. */
  predicate Died<K, V>(t: Table<K, V>, rd: Reader<V>) {
    rd.Match? && |t.slots| > 0 && !t.slots[Wrap(rd.pos, |t.slots|)].Live?
  }

  ghost function Rank<K, V>(s: State<K, V>, hash: K -> nat, key: K): nat
    requires Inv(s, hash, key)
  {
    Left(View(s), hash, key, s.reader) + if Died(View(s), s.reader) then 2 else 0
  }

  /** The reader's next step of its own. */
  ghost function Turn<K, V>(s: State<K, V>): Step<K, V> {
    match s.reader
    case Edge(_) => TestEdge
    case Look(_) => LoadMeta
    case _ => if Died(View(s), s.reader) then Retry else Compare
  }

  lemma TurnIsCloser<K(!new), V>(s: State<K, V>, hash: K -> nat, key: K)
    requires Inv(s, hash, key) && !s.reader.Idle? && !s.reader.Found?
    ensures Enabled(s, hash, key, Turn(s))
    ensures var s' := Do(s, hash, key, Turn(s));
            Inv(s', hash, key) && !s'.reader.Idle? && Rank(s', hash, key) < Rank(s, hash, key)
  {
    hide TableInv, Owes, Settled, Home, Steps, Target;
    StepIsCloser(s, hash, key, Turn(s));
  }

  /** Left to itself, the reader finds the key from wherever it is. */
  lemma {:induction false} FindsAlone<K(!new), V>(s: State<K, V>, hash: K -> nat, key: K)
    returns (steps: seq<Step<K, V>>)
    requires Inv(s, hash, key) && !s.reader.Idle?
    ensures forall i | 0 <= i < |steps| :: steps[i].Reads() || steps[i].Retry?
    ensures Legal(s, hash, key, steps) && After(s, hash, key, steps).reader.Found?
    decreases Rank(s, hash, key)
  {
    if s.reader.Found? {
      return [];
    }
    TurnIsCloser(s, hash, key);
    hide Inv, Enabled, Do, Rank, Died;
    var rest := FindsAlone(Do(s, hash, key, Turn(s)), hash, key);
    steps := [Turn(s)] + rest;
    assert steps[1..] == rest;
  }

  // ---- What the writers leave ----

  /** Which key each slot serves, and what the table holds. */
  datatype Book<K, V> = Book(where: map<nat, K>, held: map<K, Entry<V>>)

  ghost function Served<K, V>(slots: seq<Slot<K, V>>): map<nat, K> {
    map i: nat | i < |slots| && slots[i].Live? :: slots[i].key
  }

  ghost function BookOf<K, V>(slots: seq<Slot<K, V>>): Book<K, V>
    requires Unique(slots)
  {
    Book(Served(slots), Contents(slots))
  }

  /** What a step makes of the table, by its arguments alone. */
  ghost function Booked<K, V>(b: Book<K, V>, step: Step<K, V>): Book<K, V> {
    match step
    case Publish(p, k, value, off) => Book(b.where[p := k], b.held[k := Entry(value, off)])
    case Kill(p) => if p in b.where then Book(b.where - {p}, b.held - {b.where[p]}) else b
    case Overwrite(p, value, off) =>
      if p in b.where then Book(b.where, b.held[b.where[p] := Entry(value, off)]) else b
    case Rebuild(next) => Book(Served(next.slots), b.held)
    case _ => b
  }

  ghost function BookedAll<K, V>(b: Book<K, V>, steps: seq<Step<K, V>>): Book<K, V>
    decreases |steps|
  {
    if steps == [] then b else BookedAll(Booked(b, steps[0]), steps[1..])
  }

  lemma ServedAfter<K, V>(slots: seq<Slot<K, V>>, p: nat, x: Slot<K, V>)
    requires p < |slots|
    ensures Served(slots[p := x]) == if x.Live? then Served(slots)[p := x.key] else Served(slots) - {p}
    ensures p in Served(slots) <==> slots[p].Live?
    ensures slots[p].Live? ==> Served(slots)[p] == slots[p].key
  {
  }

  lemma AreUnique<K, V>(t: Table<K, V>, hash: K -> nat, key: K)
    requires TableOk(t, hash, key)
    ensures Unique(t.slots)
  {
  }

  lemma WrittenMeans<K(!new), V>(s: State<K, V>, hash: K -> nat, key: K, step: Step<K, V>)
    requires Inv(s, hash, key) && Enabled(s, hash, key, step) && !step.Rebuild?
    requires Unique(s.cur.slots)
    ensures var t := Written(s, hash, key, step);
            Unique(t.slots) ==> BookOf(t.slots) == Booked(BookOf(s.cur.slots), step)
  {
    hide Unique, OnTrack, Contents, Home, Steps, Noted, Forgotten, Served, UsedSet;
    var t := s.cur;
    match step
    case Publish(p, k, value, off) =>
      PublishKeepsTable(t.slots, t.over, hash, p, k, value, off);
      ServedAfter(t.slots, p, Live(k, value, TagOf(hash(k)), off));
    case Kill(p) =>
      KillKeepsTable(t.slots, t.over, hash, p, Tomb(t.slots[p].key, t.slots[p].tag));
      ServedAfter(t.slots, p, Tomb(t.slots[p].key, t.slots[p].tag));
    case MakeFree(p) =>
      FreeKeepsTable(t.slots, t.over, hash, p);
      ServedAfter(t.slots, p, Free);
    case Overwrite(p, value, off) =>
      OverwriteKeepsTable(t.slots, t.over, hash, p, value, off);
      ServedAfter(t.slots, p, t.slots[p].(value := value, expireOff := off));
    case _ =>
  }

  lemma InvUnique<K, V>(s: State<K, V>, hash: K -> nat, key: K)
    requires Inv(s, hash, key)
    ensures Unique(s.cur.slots)
  {
    AreUnique(s.cur, hash, key);
  }

  lemma StepMeans<K(!new), V>(s: State<K, V>, hash: K -> nat, key: K, step: Step<K, V>)
    requires Inv(s, hash, key) && Enabled(s, hash, key, step)
    requires Unique(s.cur.slots) && Unique(Do(s, hash, key, step).cur.slots)
    ensures BookOf(Do(s, hash, key, step).cur.slots) == Booked(BookOf(s.cur.slots), step)
  {
    hide Inv, Unique, OnTrack, Probed, Contents, Home, Served, Written;
    if !step.Rebuild? {
      WrittenMeans(s, hash, key, step);
    }
  }

  /** Under every schedule the table holds what the publishes, overwrites and kills say, in their order: readers,
      counter updates, tombstones and rebuilds change nothing. */
  lemma {:induction false} RunMeans<K(!new), V>(s: State<K, V>, hash: K -> nat, key: K, steps: seq<Step<K, V>>)
    requires Inv(s, hash, key) && Legal(s, hash, key, steps)
    ensures Unique(s.cur.slots) && Unique(After(s, hash, key, steps).cur.slots)
    ensures BookOf(After(s, hash, key, steps).cur.slots) == BookedAll(BookOf(s.cur.slots), steps)
    decreases |steps|
  {
    hide Inv, Enabled, Do, BookOf, Booked, Unique;
    InvUnique(s, hash, key);
    if steps != [] {
      StepKeepsInv(s, hash, key, steps[0]);
      InvUnique(Do(s, hash, key, steps[0]), hash, key);
      StepMeans(s, hash, key, steps[0]);
      RunMeans(Do(s, hash, key, steps[0]), hash, key, steps[1..]);
    }
  }

  // ---- What the probe reads ----

  function Held<K(==), V>(t: Table<K, V>, key: K): V
    requires Sits(t, key)
  {
    t.slots[t.at].value
  }

  /** Where the key sits and what it holds after a step, by the step alone. */
  function Asked<K, V>(now: (nat, V), step: Step<K, V>): (nat, V) {
    match step
    case Overwrite(p, value, _) => if p == now.0 then (p, value) else now
    case Rebuild(next) => (next.at, now.1)
    case _ => now
  }

  /** Every value the key was given while the steps were taken, its value before them included. */
  ghost function Values<K, V>(now: (nat, V), steps: seq<Step<K, V>>): set<V>
    decreases |steps|
  {
    {now.1} + if steps == [] then {} else Values(Asked(now, steps[0]), steps[1..])
  }

  lemma StepHolds<K(!new), V>(s: State<K, V>, hash: K -> nat, key: K, step: Step<K, V>)
    requires Inv(s, hash, key) && Enabled(s, hash, key, step)
    ensures var s' := Do(s, hash, key, step);
            Inv(s', hash, key) && (s'.cur.at, Held(s'.cur, key)) == Asked((s.cur.at, Held(s.cur, key)), step)
  {
    StepKeepsInv(s, hash, key, step);
    hide TableInv, Owes, Settled, OnTrack, Probed, Contents;
    if step.Rebuild? {
      AreUnique(step.next, hash, key);
      ContentsAt(s.cur.slots, s.cur.at);
      ContentsAt(step.next.slots, step.next.at);
    }
  }

  /** The table the reader is on holds one of `vals` for the key, and so did the slot it found. */
  ghost predicate Sees<K, V>(s: State<K, V>, key: K, vals: set<V>)
    requires Sits(View(s), key)
  {
    Held(View(s), key) in vals && (s.reader.Found? ==> s.reader.value in vals)
  }

  lemma StepSees<K(!new), V>(s: State<K, V>, hash: K -> nat, key: K, step: Step<K, V>, vals: set<V>)
    requires Inv(s, hash, key) && Enabled(s, hash, key, step) && !s.reader.Idle?
    requires Sees(s, key, vals)
    ensures var s' := Do(s, hash, key, step);
            && Inv(s', hash, key) && !s'.reader.Idle?
            && Sees(s', key, vals + {Held(s'.cur, key)})
  {
    StepIsCloser(s, hash, key, step);
    hide TableInv, Owes, Settled, Contents, Home, Steps;
    if step.Compare? {
      AreUnique(View(s), hash, key);
      var t, i := View(s), Wrap(s.reader.pos, |View(s).slots|);
      assert t.slots[i].Live? && t.slots[i].key == key ==> i == t.at;
    }
  }

  lemma {:induction false} RunSees<K(!new), V>(s: State<K, V>, hash: K -> nat, key: K, steps: seq<Step<K, V>>,
                                               vals: set<V>)
    requires Inv(s, hash, key) && !s.reader.Idle? && Legal(s, hash, key, steps) && Sees(s, key, vals)
    ensures Sees(After(s, hash, key, steps), key, vals + Values((s.cur.at, Held(s.cur, key)), steps))
    decreases |steps|
  {
    hide Inv, Do, Enabled, Sees, Held, Asked, Sits;
    InvSits(s, hash, key);
    InvSits(After(s, hash, key, steps), hash, key);
    if steps == [] {
      SeesMore(s, key, vals, vals + Values<K, V>((s.cur.at, Held(s.cur, key)), steps));
    } else {
      StepSees(s, hash, key, steps[0], vals);
      StepHolds(s, hash, key, steps[0]);
      var s' := Do(s, hash, key, steps[0]);
      InvSits(s', hash, key);
      RunSees(s', hash, key, steps[1..], vals + {Held(s'.cur, key)});
      SeesMore(After(s, hash, key, steps), key,
               vals + {Held(s'.cur, key)} + Values((s'.cur.at, Held(s'.cur, key)), steps[1..]),
               vals + Values((s.cur.at, Held(s.cur, key)), steps));
    }
  }

  lemma InvSits<K, V>(s: State<K, V>, hash: K -> nat, key: K)
    requires Inv(s, hash, key)
    ensures Sits(s.cur, key) && Sits(View(s), key)
  {
  }

  lemma SeesMore<K, V>(s: State<K, V>, key: K, a: set<V>, b: set<V>)
    requires Sits(View(s), key) && Sees(s, key, a) && a <= b
    ensures Sees(s, key, b)
  {
  }

  /** Over every interleaving: the value a probe returns is one the key held while the probe was under way. */
  lemma ProbeReads<K(!new), V>(s: State<K, V>, hash: K -> nat, key: K, steps: seq<Step<K, V>>)
    requires Inv(s, hash, key) && Legal(s, hash, key, steps)
    requires !s.stale && !s.reader.Idle? && !s.reader.Found?
    ensures var rd := After(s, hash, key, steps).reader;
            rd.Found? ==> rd.value in Values((s.cur.at, Held(s.cur, key)), steps)
  {
    hide Inv, Legal, After;
    InvSits(s, hash, key);
    InvSits(After(s, hash, key, steps), hash, key);
    var v := Held(s.cur, key);
    RunSees(s, hash, key, steps, {v});
    assert {v} + Values((s.cur.at, v), steps) == Values((s.cur.at, v), steps);
  }
}
