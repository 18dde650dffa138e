/** What an item's writers asked for, read off the schedule alone, against what the seqlock steps make of it. */
module SeqlockHistory {
  import opened ItemSeqlock

  /**
   The writers' requests so far. `current` is the entry asked for last, with its tag and deadline; `asked` is every
   entry with the epoch its request was committed under; `pending` and the fields after it belong to a request still
   under way.
   */
  datatype Asked = Asked(epoch: nat, current: seq<Word>, tag: nat, off: nat, dead: bool, free: bool,
                         asked: set<(nat, seq<Word>)>, pending: seq<Word>, pendingTag: nat, pendingOff: nat)

  const NOTHING := Asked(0, [], 0, 0, false, false, {}, [], 0, 0)

  function WithLast(entry: seq<Word>, word: Word): seq<Word> {
    if entry == [] then [] else entry[..|entry| - 1] + [word]
  }

  /** One step more. A bracketed overwrite writes back the deadline it loaded. */
  function Asks(a: Asked, step: Step): Asked {
    match step
    case PublishStart(entry, tag, off) => a.(pending := entry, pendingTag := tag, pendingOff := off)
    case PublishStore =>
      a.(epoch := a.epoch + 1, current := a.pending, tag := a.pendingTag, off := a.pendingOff,
         dead := false, free := false,
         asked := a.asked + {(a.epoch + 1, a.pending)})
    case OverwriteBegin(entry) => a.(pending := entry)
    case OverwriteLoad => a.(pendingOff := a.off)
    case OverwriteStore =>
      a.(epoch := a.epoch + 1, current := a.pending, off := a.pendingOff,
         asked := a.asked + {(a.epoch + 1, a.pending)})
    case OverwriteSmall(word) =>
      a.(current := WithLast(a.current, word), asked := a.asked + {(a.epoch, WithLast(a.current, word))})
    case RefreshLoad(off) => a.(pendingOff := off)
    case RefreshStore => a.(off := a.pendingOff)
    case TouchAndRefresh(_, off) => a.(off := off)
    case Kill => a.(dead := true)
    case FreeEnd => a.(free := true)
    case _ => a
  }

  function AskedBy(a: Asked, steps: seq<Step>): Asked
    decreases |steps|
  {
    if steps == [] then a else AskedBy(Asks(a, steps[0]), steps[1..])
  }

  // ---- The steps do what was asked ----

  ghost predicate AllZero(lay: Layout, words: seq<Word>) {
    forall i | 0 <= i < |words| :: words[i] == lay.zero
  }

  /** The item is where its requests lead. */
  ghost predicate Follows(lay: Layout, s: State, a: Asked) {
    && s.epoch == a.epoch && s.log == a.asked
    && s.meta.tag == a.tag && s.meta.expireOff == a.off && s.meta.dead == a.dead && s.meta.free == a.free
    && (Settled(s) ==> s.words == a.current)
    && match s.writer
       case Idle => true
       case Filling(entry, _, tag, off) => entry == a.pending && tag == a.pendingTag && off == a.pendingOff
       case Filled(entry, tag, off, _) => entry == a.pending && tag == a.pendingTag && off == a.pendingOff
       case Writing(entry, _) => entry == a.pending
       case Ending(entry, seen) => entry == a.pending && Carried(seen, a) && seen.expireOff == a.pendingOff
       case Refreshing(seen, off) => Carried(seen, a) && off == a.pendingOff
       case Zeroing(_) => true
  }

  /** A word loaded earlier under the mutex still tells what only the mutex changes. */
  predicate Carried(seen: Meta, a: Asked) {
    seen.tag == a.tag && seen.dead == a.dead && seen.free == a.free
  }

  /** A released slot keeps nothing of its item. */
  ghost predicate Zeroed(lay: Layout, s: State) {
    && (s.writer.Zeroing? ==> s.writer.done <= |s.words| && AllZero(lay, s.words[..s.writer.done]))
    && (s.meta.free && !s.writer.Filling? && !s.writer.Filled? && !s.writer.Zeroing? ==> AllZero(lay, s.words))
    && (s.meta.free ==> s.meta.dead) && (s.writer.Ending? || s.writer.Refreshing? ==> !s.writer.seen.free)
  }

  lemma StepFollows(lay: Layout, s: State, a: Asked, step: Step)
    requires Inv(lay, s) && Enabled(lay, s, step) && Follows(lay, s, a)
    ensures Follows(lay, Do(lay, s, step), Asks(a, step))
  {
    hide GenOf, LiveGen, ReaderInv;
    if step.OverwriteSmall? {
      assert Settled(s);
      assert s.words[lay.size - 1 := step.word] == WithLast(s.words, step.word);
    }
  }

  lemma StepZeroes(lay: Layout, s: State, step: Step)
    requires Inv(lay, s) && Enabled(lay, s, step) && Zeroed(lay, s)
    ensures Zeroed(lay, Do(lay, s, step))
  {
    hide GenOf, LiveGen, ReaderInv, LogInv;
    var s' := Do(lay, s, step);
    if step.FreeWord? {
      var done := s.writer.done;
      assert s'.words[..done + 1] == s.words[..done] + [lay.zero];
    } else if step.FreeEnd? {
      assert s.words[..lay.size] == s.words;
    } else if step.FreeStart? {
      assert s'.words[..0] == [];
    }
  }

  lemma {:induction false} RunFollows(lay: Layout, s: State, a: Asked, steps: seq<Step>)
    requires lay.Valid() && |s.words| == lay.size && Inv(lay, s) && Schedule(lay, s, steps)
    requires Follows(lay, s, a) && Zeroed(lay, s)
    ensures Inv(lay, After(lay, s, steps)) && Zeroed(lay, After(lay, s, steps))
    ensures Follows(lay, After(lay, s, steps), AskedBy(a, steps))
    decreases |steps|
  {
    hide Inv, Do, Enabled, Follows, Zeroed, Asks;
    if steps != [] {
      StepKeepsInv(lay, s, steps[0]);
      StepFollows(lay, s, a, steps[0]);
      StepZeroes(lay, s, steps[0]);
      RunFollows(lay, Do(lay, s, steps[0]), Asks(a, steps[0]), steps[1..]);
    }
  }

  /** Under every interleaving: what is committed is exactly what was asked for, under the epoch it was asked for; a
      settled item is the entry asked for last, under the tag and deadline asked for last; and a released slot holds
      nothing. */
  lemma DoesAsAsked(lay: Layout, words: seq<Word>, steps: seq<Step>)
    requires lay.Valid() && |words| == lay.size && Schedule(lay, Init(lay, words), steps)
    ensures var s, a := After(lay, Init(lay, words), steps), AskedBy(NOTHING, steps);
            && s.epoch == a.epoch && s.log == a.asked
            && s.meta.tag == a.tag && s.meta.expireOff == a.off && s.meta.dead == a.dead && s.meta.free == a.free
            && (Settled(s) ==> s.words == a.current && (a.epoch, a.current) in a.asked)
            && (s.meta.free && s.writer.Idle? ==> AllZero(lay, s.words))
  {
    RunFollows(lay, Init(lay, words), NOTHING, steps);
  }

  /** Under every interleaving: an accepted copy is an entry some writer asked for under the epoch the reader saw,
      unless the generations went all the way round inside its window. */
  lemma AcceptedWasAsked(lay: Layout, words: seq<Word>, steps: seq<Step>, r: nat)
    requires lay.Valid() && |words| == lay.size && Schedule(lay, Init(lay, words), steps)
    requires r in After(lay, Init(lay, words), steps).readers
    ensures var s := After(lay, Init(lay, words), steps);
            s.readers[r].Accepted? ==>
              var Accepted(meta, copy, since, at) := s.readers[r];
              at - since < CYCLE ==> at == since && (since, copy) in AskedBy(NOTHING, steps).asked
  {
    hide Schedule, After, AskedBy, GenOf;
    AcceptedSnapshotIsWhole(lay, words, steps, r);
    DoesAsAsked(lay, words, steps);
  }
}
