/**
 One item under concurrent access: a writer holding the shard mutex copies the entry word by word, lock-free readers
 copy it word by word and validate by generation. Every atomic access is one step, steps interleave freely, and
 memory is sequentially consistent. `epoch` counts the occupancies and bracketed overwrites ever committed; the meta
 word carries it only cyclically.
 */
module ItemSeqlock {

  /** A machine word of the entry: read and written whole. */
  type Word = nat

  /** The fields of the meta word. */
  datatype Meta = Meta(dead: bool, second: bool, third: bool, free: bool, expireOff: nat, tag: nat, gen: nat)

  /** A never-occupied slot: the word is 0. */
  const NEVER := Meta(false, false, false, false, 0, 0, 0)

  const GEN_RANGE: nat := 0x1000_0000
  /** How many even generations there are, 0 being reserved. */
  const CYCLE: nat := 0x7FF_FFFF

  /** Fits a generation into its field, skipping the reserved 0. */
  function LiveGen(gen: nat): (g: nat)
    ensures 0 < g
  {
    if gen % GEN_RANGE == 0 then 2 else gen % GEN_RANGE
  }

  /** The generation field after `epoch` commits. */
  function GenOf(epoch: nat): (g: nat)
    ensures g % 2 == 0 && g < GEN_RANGE && (g == 0 <==> epoch == 0)
  {
    if epoch == 0 then 0 else 2 * ((epoch - 1) % CYCLE + 1)
  }

  lemma GenAdvances(epoch: nat)
    ensures LiveGen(GenOf(epoch) + 2) == GenOf(epoch + 1)
  {
    if epoch > 0 {
      var q, r := (epoch - 1) / CYCLE, (epoch - 1) % CYCLE;
      assert epoch - 1 == CYCLE * q + r;
      if r == CYCLE - 1 {
        assert epoch == CYCLE * (q + 1);
        assert epoch % CYCLE == 0;
      } else {
        assert epoch % CYCLE == r + 1;
      }
    }
  }

  /** Two occupancies carry the same generation exactly if they are a whole number of cycles apart. */
  lemma {:induction false} SameGen(a: nat, b: nat)
    requires 0 < a <= b
    ensures GenOf(a) == GenOf(b) <==> (b - a) % CYCLE == 0
  {
    if b - a >= CYCLE {
      SameGen(a, b - CYCLE);
      CycleLater(b - CYCLE - 1);
      CycleLater(b - CYCLE - a);
    } else {
      WithinCycle(a - 1, b - 1);
    }
  }

  lemma CycleLater(x: nat)
    ensures (x + CYCLE) % CYCLE == x % CYCLE
  {
  }

  lemma WithinCycle(x: nat, y: nat)
    requires x <= y < x + CYCLE
    ensures x % CYCLE == y % CYCLE <==> x == y
    ensures (y - x) % CYCLE == 0 <==> x == y
  {
  }

  datatype Writer =
    | Idle
    | Filling(entry: seq<Word>, done: nat, tag: nat, off: nat)  // Publish: the entry before the meta word
    | Filled(entry: seq<Word>, tag: nat, off: nat, gen: nat)    // Publish: the next generation is computed
    | Writing(entry: seq<Word>, done: nat)                      // SetValue between beginWrite and endWrite
    | Ending(entry: seq<Word>, seen: Meta)                      // endWrite has loaded the word
    | Refreshing(seen: Meta, off: nat)                       // RefreshExpire has loaded the word
    | Zeroing(done: nat)                                     // MakeFree

  datatype Reader =
    | Out
    | Reading(meta: Meta, copy: seq<Word>, since: nat)
    | Accepted(meta: Meta, copy: seq<Word>, since: nat, at: nat)

  /** `log` is every entry ever committed, with the epoch it was committed under. */
  datatype State = State(meta: Meta, words: seq<Word>, writer: Writer, readers: map<nat, Reader>,
                            epoch: nat, log: set<(nat, seq<Word>)>)

  /** `keyWords` words of key, then the value; values of more than one word are written under an odd generation. */
  datatype Layout = Layout(size: nat, keyWords: nat, zero: Word) {
    predicate Wide() { size > keyWords + 1 }
    predicate Valid() { 0 <= keyWords < size }
  }

  datatype Step =
    | PublishStart(entry: seq<Word>, tag: nat, off: nat) | PublishWord | PublishLoad | PublishStore
    | OverwriteBegin(entry: seq<Word>) | OverwriteWord | OverwriteLoad | OverwriteStore
    | OverwriteSmall(word: Word)
    | RefreshLoad(off: nat) | RefreshStore
    | Kill
    | FreeStart | FreeWord | FreeEnd
    | ClearChances(second: bool, third: bool)
    | ReadMeta(r: nat) | ReadWord(r: nat) | Validate(r: nat)
    | Touch(r: nat) | TouchAndRefresh(r: nat, off: nat)

  /** The next reference bit, given the word the reader loaded. */
  function Touched(meta: Meta, seen: Meta): Meta {
    if !seen.second then meta.(second := true) else if !seen.third then meta.(third := true) else meta
  }

  predicate SameAliveGen(a: Meta, b: Meta) {
    a.dead == b.dead && a.gen == b.gen
  }

  ghost function ReaderOf(s: State, r: nat): Reader {
    if r in s.readers then s.readers[r] else Out
  }

  /** When each step can be taken. A slot is published into only while empty or dead, killed and overwritten only
      while alive: the callers hold the mutex and have looked. */
  ghost predicate Enabled(lay: Layout, s: State, step: Step) {
    match step
    case PublishStart(entry, _, _) => s.writer.Idle? && |entry| == lay.size && (s.meta == NEVER || s.meta.dead)
    case PublishWord => s.writer.Filling? && s.writer.done < lay.size && s.writer.done < |s.writer.entry|
    case PublishLoad => s.writer.Filling? && s.writer.done == lay.size
    case PublishStore => s.writer.Filled?
    case OverwriteBegin(entry) =>
      s.writer.Idle? && lay.Wide() && s.meta != NEVER && !s.meta.dead && |entry| == lay.size
      && |s.words| == lay.size && entry[..lay.keyWords] == s.words[..lay.keyWords]
    case OverwriteWord => s.writer.Writing? && s.writer.done < lay.size && s.writer.done < |s.writer.entry|
    case OverwriteLoad => s.writer.Writing? && s.writer.done == lay.size
    case OverwriteStore => s.writer.Ending?
    case OverwriteSmall(_) => s.writer.Idle? && !lay.Wide() && s.meta != NEVER && !s.meta.dead
    case RefreshLoad(_) => s.writer.Idle? && s.meta != NEVER && !s.meta.dead
    case RefreshStore => s.writer.Refreshing?
    case Kill => s.writer.Idle? && s.meta != NEVER
    case FreeStart => s.writer.Idle? && s.meta.dead
    case FreeWord => s.writer.Zeroing? && s.writer.done < lay.size
    case FreeEnd => s.writer.Zeroing? && s.writer.done == lay.size
    case ClearChances(_, _) => s.writer.Idle?
    case ReadMeta(_) => s.meta != NEVER && !s.meta.dead
    case ReadWord(r) => ReaderOf(s, r).Reading? && |ReaderOf(s, r).copy| < lay.size
    case Validate(r) => ReaderOf(s, r).Reading? && |ReaderOf(s, r).copy| == lay.size
    case Touch(r) => ReaderOf(s, r).Accepted?
    case TouchAndRefresh(r, _) => ReaderOf(s, r).Accepted? && s.meta == ReaderOf(s, r).meta
  }

  ghost function Do(lay: Layout, s: State, step: Step): (s': State)
    requires lay.Valid() && |s.words| == lay.size && Enabled(lay, s, step)
    ensures |s'.words| == lay.size
  {
    match step
    case PublishStart(entry, tag, off) => s.(writer := Filling(entry, 0, tag, off))
    case PublishWord =>
      var w := s.writer;
      s.(words := s.words[w.done := w.entry[w.done]], writer := Filling(w.entry, w.done + 1, w.tag, w.off))
    case PublishLoad =>
      var w := s.writer;
      s.(writer := Filled(w.entry, w.tag, w.off, LiveGen((s.meta.gen + 2) / 2 * 2)))
    case PublishStore =>
      var w := s.writer;
      s.(meta := Meta(false, false, false, false, w.off, w.tag, w.gen), writer := Idle,
         epoch := s.epoch + 1, log := s.log + {(s.epoch + 1, w.entry)})
    case OverwriteBegin(entry) =>
      s.(meta := s.meta.(gen := (s.meta.gen + 1) % GEN_RANGE), writer := Writing(entry, lay.keyWords))
    case OverwriteWord =>
      var w := s.writer;
      s.(words := s.words[w.done := w.entry[w.done]], writer := Writing(w.entry, w.done + 1))
    case OverwriteLoad => s.(writer := Ending(s.writer.entry, s.meta))
    case OverwriteStore =>
      s.(meta := s.writer.seen.(gen := LiveGen(s.writer.seen.gen + 1)), writer := Idle,
         epoch := s.epoch + 1, log := s.log + {(s.epoch + 1, s.writer.entry)})
    case OverwriteSmall(word) =>
      var words := s.words[lay.size - 1 := word];
      s.(words := words, log := s.log + {(s.epoch, words)})
    case RefreshLoad(off) => s.(writer := Refreshing(s.meta, off))
    case RefreshStore => s.(meta := s.writer.seen.(expireOff := s.writer.off), writer := Idle)
    case Kill => s.(meta := s.meta.(dead := true))
    case FreeStart => s.(writer := Zeroing(0))
    case FreeWord => s.(words := s.words[s.writer.done := lay.zero], writer := Zeroing(s.writer.done + 1))
    case FreeEnd => s.(meta := s.meta.(free := true), writer := Idle)
    case ClearChances(second, third) =>
      s.(meta := s.meta.(second := s.meta.second && !second, third := s.meta.third && !third))
    case ReadMeta(r) => s.(readers := s.readers[r := Reading(s.meta, [], s.epoch)])
    case ReadWord(r) =>
      var rd := ReaderOf(s, r);
      s.(readers := s.readers[r := Reading(rd.meta, rd.copy + [s.words[|rd.copy|]], rd.since)])
    case Validate(r) =>
      var rd := ReaderOf(s, r);
      s.(readers := s.readers[r := if SameAliveGen(s.meta, rd.meta) && rd.meta.gen % 2 == 0
                                   then Accepted(rd.meta, rd.copy, rd.since, s.epoch) else Out])
    case Touch(r) => s.(meta := Touched(s.meta, ReaderOf(s, r).meta))
    case TouchAndRefresh(r, off) => s.(meta := Touched(s.meta, s.meta).(expireOff := off))
  }

  ghost predicate WriterFits(lay: Layout, w: Writer) {
    && (w.Filling? ==> |w.entry| == lay.size && w.done <= lay.size)
    && (w.Filled? ==> |w.entry| == lay.size)
    && (w.Writing? ==> |w.entry| == lay.size && lay.keyWords <= w.done <= lay.size)
    && (w.Ending? ==> |w.entry| == lay.size)
    && (w.Zeroing? ==> w.done <= lay.size)
  }

  // ---- The invariant ----

  /** Some whole entry is in place for readers: the item lives and no bracketed overwrite is under way. */
  predicate Settled(s: State) {
    s.epoch > 0 && !s.meta.dead && !s.writer.Writing? && !s.writer.Ending?
  }

  /** The generation field tells the epoch, and is odd exactly inside a bracketed overwrite. */
  ghost predicate GenInv(s: State) {
    && s.meta.gen == GenOf(s.epoch) + (if s.writer.Writing? || s.writer.Ending? then 1 else 0)
    && (s.epoch == 0 ==> s.meta == NEVER)
  }

  ghost predicate WriterInv(lay: Layout, s: State)
    requires |s.words| == lay.size
  {
    && WriterFits(lay, s.writer)
    && match s.writer
       case Idle => true
       case Filling(entry, done, _, _) => (s.epoch == 0 || s.meta.dead) && s.words[..done] == entry[..done]
       case Filled(entry, _, _, gen) =>
         (s.epoch == 0 || s.meta.dead) && s.words == entry && gen == GenOf(s.epoch + 1)
       case Writing(entry, done) => lay.Wide() && s.epoch > 0 && !s.meta.dead && s.words[..done] == entry[..done]
       case Ending(entry, seen) => lay.Wide() && s.epoch > 0 && !s.meta.dead && s.words == entry
         && SameAliveGen(seen, s.meta)
       case Refreshing(seen, _) => s.epoch > 0 && !s.meta.dead && SameAliveGen(seen, s.meta)
       case Zeroing(_) => s.epoch > 0 && s.meta.dead
  }

  /** Entries committed under one epoch differ at most in a one-word value. */
  ghost predicate LogInv(lay: Layout, s: State)
    requires lay.Valid()
  {
    && (forall c | c in s.log :: 0 < c.0 <= s.epoch && |c.1| == lay.size)
    && (forall c, d | c in s.log && d in s.log && c.0 == d.0 ::
          c.1[..lay.size - 1] == d.1[..lay.size - 1] && (lay.Wide() ==> c.1 == d.1))
    && (Settled(s) ==> (s.epoch, s.words) in s.log)
  }

  ghost predicate ReaderInv(lay: Layout, s: State, rd: Reader) {
    match rd
    case Out => true
    case Reading(meta, copy, since) =>
      && 0 < since <= s.epoch && !meta.dead && |copy| <= lay.size
      && (meta.gen == GenOf(since) || meta.gen == GenOf(since) + 1)
      && (meta.gen == GenOf(since) && since == s.epoch && Settled(s) ==> PrefixOfCommitted(s.log, since, copy))
    case Accepted(meta, copy, since, at) =>
      && 0 < since <= at <= s.epoch && (at - since) % CYCLE == 0 && meta.gen == GenOf(since)
      && (at == since ==> (since, copy) in s.log)
  }

  ghost predicate PrefixOfCommitted(log: set<(nat, seq<Word>)>, epoch: nat, copy: seq<Word>) {
    exists c :: c in log && c.0 == epoch && copy <= c.1
  }

  ghost predicate Inv(lay: Layout, s: State) {
    && lay.Valid() && |s.words| == lay.size
    && GenInv(s) && WriterInv(lay, s) && LogInv(lay, s)
    && (forall r | r in s.readers :: ReaderInv(lay, s, s.readers[r]))
  }

  ghost function Init(lay: Layout, words: seq<Word>): State {
    State(NEVER, words, Idle, map[], 0, {})
  }

  // ---- Every step keeps it ----

  lemma GenKept(lay: Layout, s: State, step: Step)
    requires Inv(lay, s) && Enabled(lay, s, step)
    ensures GenInv(Do(lay, s, step))
  {
    hide LogInv, GenOf, LiveGen;
    GenAdvances(s.epoch);
  }

  lemma WriterKept(lay: Layout, s: State, step: Step)
    requires Inv(lay, s) && Enabled(lay, s, step)
    ensures |Do(lay, s, step).words| == lay.size && WriterInv(lay, Do(lay, s, step))
  {
    hide LogInv, ReaderInv, GenOf, LiveGen;
    GenAdvances(s.epoch);
  }

  lemma LogKept(lay: Layout, s: State, step: Step)
    requires Inv(lay, s) && Enabled(lay, s, step)
    ensures LogInv(lay, Do(lay, s, step))
  {
    hide ReaderInv, GenOf, LiveGen;
  }

  /** A reader that takes no step itself: its window either stays clean or is gone for good. */
  lemma BystanderKept(lay: Layout, s: State, s': State, rd: Reader)
    requires ReaderInv(lay, s, rd) && s.epoch <= s'.epoch && s.log <= s'.log
    requires s'.epoch == s.epoch && Settled(s') ==> Settled(s)
    ensures ReaderInv(lay, s', rd)
  {
    if rd.Reading? && rd.meta.gen == GenOf(rd.since) && rd.since == s'.epoch && Settled(s') {
      var c :| c in s.log && c.0 == rd.since && rd.copy <= c.1;
      assert c in s'.log;
    }
  }

  lemma ReadMetaKept(lay: Layout, s: State, r: nat)
    requires Inv(lay, s) && Enabled(lay, s, ReadMeta(r))
    ensures ReaderInv(lay, Do(lay, s, ReadMeta(r)), Reading(s.meta, [], s.epoch))
  {
    if Settled(s) {
      assert [] <= s.words;
      assert (s.epoch, s.words) in s.log;
    }
  }

  lemma ReadWordKept(lay: Layout, s: State, r: nat)
    requires Inv(lay, s) && Enabled(lay, s, ReadWord(r))
    ensures var s' := Do(lay, s, ReadWord(r)); ReaderInv(lay, s', s'.readers[r])
  {
    var rd := s.readers[r];
    assert ReaderInv(lay, s, rd);
    var i := |rd.copy|;
    var copy := rd.copy + [s.words[i]];
    if rd.meta.gen == GenOf(rd.since) && rd.since == s.epoch && Settled(s) {
      var c :| c in s.log && c.0 == rd.since && rd.copy <= c.1;
      var d := (s.epoch, s.words);
      assert c.1[..lay.size - 1][..i] == d.1[..lay.size - 1][..i];
      assert rd.copy == s.words[..i];
      assert copy <= d.1;
      assert PrefixOfCommitted(s.log, rd.since, copy);
    }
  }

  lemma ValidateKept(lay: Layout, s: State, r: nat)
    requires Inv(lay, s) && Enabled(lay, s, Validate(r))
    ensures var s' := Do(lay, s, Validate(r)); ReaderInv(lay, s', s'.readers[r])
  {
    var rd := s.readers[r];
    assert ReaderInv(lay, s, rd);
    if SameAliveGen(s.meta, rd.meta) && rd.meta.gen % 2 == 0 {
      SameGen(rd.since, s.epoch);
      if rd.since == s.epoch {
        var c :| c in s.log && c.0 == rd.since && rd.copy <= c.1;
        assert rd.copy == c.1;
      }
    }
  }

  lemma StepKeepsInv(lay: Layout, s: State, step: Step)
    requires Inv(lay, s) && Enabled(lay, s, step)
    ensures Inv(lay, Do(lay, s, step))
  {
    hide LogInv, GenInv, ReaderInv, GenOf, LiveGen;
    var s' := Do(lay, s, step);
    GenKept(lay, s, step);
    WriterKept(lay, s, step);
    LogKept(lay, s, step);
    forall r | r in s'.readers ensures ReaderInv(lay, s', s'.readers[r]) {
      if step.ReadMeta? && step.r == r {
        ReadMetaKept(lay, s, r);
      } else if step.ReadWord? && step.r == r {
        ReadWordKept(lay, s, r);
      } else if step.Validate? && step.r == r {
        ValidateKept(lay, s, r);
      } else {
        BystanderKept(lay, s, s', s.readers[r]);
      }
    }
  }

  // ---- Runs ----

  /** `steps` can be taken from `s`, one after the other. */
  ghost predicate Schedule(lay: Layout, s: State, steps: seq<Step>)
    requires lay.Valid() && |s.words| == lay.size
    decreases |steps|
  {
    steps == [] || (Enabled(lay, s, steps[0]) && Schedule(lay, Do(lay, s, steps[0]), steps[1..]))
  }

  ghost function After(lay: Layout, s: State, steps: seq<Step>): State
    requires lay.Valid() && |s.words| == lay.size && Schedule(lay, s, steps)
    decreases |steps|
  {
    if steps == [] then s else After(lay, Do(lay, s, steps[0]), steps[1..])
  }

  lemma {:induction false} RunKeepsInv(lay: Layout, s: State, steps: seq<Step>)
    requires lay.Valid() && |s.words| == lay.size
    requires Inv(lay, s) && Schedule(lay, s, steps)
    ensures Inv(lay, After(lay, s, steps))
    decreases |steps|
  {
    hide Inv, Do, Enabled;
    if steps != [] {
      StepKeepsInv(lay, s, steps[0]);
      RunKeepsInv(lay, Do(lay, s, steps[0]), steps[1..]);
    }
  }

  /** Under every interleaving: an accepted snapshot is an entry committed under the generation the reader saw, whole,
      unless the generations went all the way round - a positive multiple of 2^27 - 1 commits - inside its window. */
  lemma AcceptedSnapshotIsWhole(lay: Layout, words: seq<Word>, steps: seq<Step>, r: nat)
    requires lay.Valid() && |words| == lay.size && Schedule(lay, Init(lay, words), steps)
    requires r in After(lay, Init(lay, words), steps).readers
    ensures var s := After(lay, Init(lay, words), steps);
            s.readers[r].Accepted? ==>
              var Accepted(meta, copy, since, at) := s.readers[r];
              && since <= at && meta.gen == GenOf(since) && (at - since) % CYCLE == 0
              && (at - since < CYCLE ==> (since, copy) in s.log)
  {
    RunKeepsInv(lay, Init(lay, words), steps);
    var s := After(lay, Init(lay, words), steps);
    assert ReaderInv(lay, s, s.readers[r]);
  }

  /** Under every interleaving: a slot that was ever published never again reads as never-occupied, and the entries
      committed under one epoch share their key. */
  lemma OccupiedIsNeverZero(lay: Layout, words: seq<Word>, steps: seq<Step>)
    requires lay.Valid() && |words| == lay.size && Schedule(lay, Init(lay, words), steps)
    ensures var s := After(lay, Init(lay, words), steps);
            && (s.epoch > 0 ==> s.meta.gen != 0)
            && (forall c, d | c in s.log && d in s.log && c.0 == d.0 ::
                  |c.1| == |d.1| == lay.size && c.1[..lay.keyWords] == d.1[..lay.keyWords])
  {
    RunKeepsInv(lay, Init(lay, words), steps);
    var s := After(lay, Init(lay, words), steps);
    forall c, d | c in s.log && d in s.log && c.0 == d.0
      ensures |c.1| == |d.1| == lay.size && c.1[..lay.keyWords] == d.1[..lay.keyWords]
    {
      assert c.1[..lay.keyWords] == c.1[..lay.size - 1][..lay.keyWords];
      assert d.1[..lay.keyWords] == d.1[..lay.size - 1][..lay.keyWords];
    }
  }
}
