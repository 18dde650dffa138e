/**
 The packed 64-bit meta word: [dead:1][second:1][third:1][free:1][expireOff:18][tag:14][gen:28]. Each operation on the
 word changes its own field and no other.
 */
module MetaWord {

  const DEAD: bv64 := 0x8000_0000_0000_0000
  const SECOND: bv64 := 0x4000_0000_0000_0000
  const THIRD: bv64 := 0x2000_0000_0000_0000
  const FREE: bv64 := 0x1000_0000_0000_0000
  const EXPIRE_MASK: bv64 := 0x0FFF_FC00_0000_0000
  const TAG_MASK: bv64 := 0x0000_03FF_F000_0000
  const GEN_MASK: bv64 := 0x0000_0000_0FFF_FFFF
  const DEAD_OR_TAG: bv64 := DEAD | TAG_MASK
  const ALIVE_GEN_MASK: bv64 := DEAD | GEN_MASK

  /** The tag stays in place, as the source compares it; the offset is shifted down. */
  datatype Fields = Fields(dead: bool, second: bool, third: bool, free: bool, off: bv64, tag: bv64, gen: bv64)

  function FieldsOf(w: bv64): (f: Fields)
    ensures f.off < 0x4_0000 && f.tag & TAG_MASK == f.tag && f.gen & GEN_MASK == f.gen
  {
    Fields(w & DEAD != 0, w & SECOND != 0, w & THIRD != 0, w & FREE != 0,
           (w & EXPIRE_MASK) >> 42, w & TAG_MASK, w & GEN_MASK)
  }

  /** The next generation: the field only, skipping the reserved 0. */
  function LiveGen(gen: bv64): (g: bv64)
    ensures g & GEN_MASK == g && g != 0
  {
    var g := gen & GEN_MASK;
    if g == 0 then 2 else g
  }

  /** Adding to the word adds to the generation field: a carry out of it is masked away. */
  lemma GenAddsAlone(was: bv64)
    ensures (was + 1) & GEN_MASK == (FieldsOf(was).gen + 1) & GEN_MASK
    ensures ((was + 2) & !1) & GEN_MASK == ((FieldsOf(was).gen + 2) & !1) & GEN_MASK
  {
  }

  function WithGen(was: bv64, gen: bv64): (w: bv64)
    requires gen & GEN_MASK == gen
    ensures FieldsOf(w) == FieldsOf(was).(gen := gen)
  {
    (was & !GEN_MASK) | gen
  }

  function Assembled(off: bv64, tag: bv64, gen: bv64): (w: bv64)
    requires tag & TAG_MASK == tag && off < 0x4_0000 && gen & GEN_MASK == gen
    ensures FieldsOf(w) == Fields(false, false, false, false, off, tag, gen)
  {
    (off << 42) | tag | gen
  }

  lemma GenZeroes(w: bv64)
    ensures FieldsOf(w).gen != 0 ==> w != 0
    ensures w & 1 == FieldsOf(w).gen & 1
  {
  }

  lemma LiveGenParity(was: bv64)
    ensures LiveGen((was + 2) & !1) & 1 == 0
    ensures was & 1 == 1 ==> LiveGen(was + 1) & 1 == 0
  {
  }

  /** A fresh occupancy over whatever the slot held before. */
  function Publish(was: bv64, tag: bv64, off: bv64): (w: bv64)
    requires tag & TAG_MASK == tag && off < 0x4_0000
    ensures FieldsOf(w) == Fields(false, false, false, false, off, tag, NextGen(was))
  {
    Assembled(off, tag, LiveGen((was + 2) & !1))
  }

  /** The generation of the next occupancy, from the field alone. */
  function NextGen(was: bv64): (g: bv64)
    ensures g == LiveGen((was + 2) & !1)
  {
    GenAddsAlone(was);
    LiveGenOfField((was + 2) & !1, (FieldsOf(was).gen + 2) & !1);
    LiveGen((FieldsOf(was).gen + 2) & !1)
  }

  /** A published word is never 0 and never looks like a write in progress. */
  lemma PublishedIsLive(was: bv64, tag: bv64, off: bv64)
    requires tag & TAG_MASK == tag && off < 0x4_0000
    ensures Publish(was, tag, off) != 0 && Publish(was, tag, off) & 1 == 0
  {
    hide *;
    LiveGenParity(was);
    GenZeroes(Publish(was, tag, off));
  }

  lemma LiveGenOfField(a: bv64, b: bv64)
    requires a & GEN_MASK == b & GEN_MASK
    ensures LiveGen(a) == LiveGen(b)
  {
  }

  /** beginWrite: the generation turns odd. */
  function BeginWrite(was: bv64): (w: bv64)
    ensures FieldsOf(w) == FieldsOf(was).(gen := (FieldsOf(was).gen + 1) & GEN_MASK)
    ensures was & 1 == 0 ==> w & 1 == 1
  {
    (was & !GEN_MASK) | ((was + 1) & GEN_MASK)
  }

  /** endWrite: the generation turns even again and is not 0. */
  function EndWrite(was: bv64): (w: bv64)
    ensures FieldsOf(w) == FieldsOf(was).(gen := LiveGen(FieldsOf(was).gen + 1))
    ensures was & 1 == 1 ==> w & 1 == 0 && w != 0
  {
    hide *;
    GenAddsAlone(was);
    LiveGenOfField(was + 1, FieldsOf(was).gen + 1);
    LiveGenParity(was);
    var w := WithGen(was, LiveGen(was + 1));
    GenZeroes(w);
    w
  }

  function RefreshExpire(was: bv64, off: bv64): (w: bv64)
    requires off < 0x4_0000
    ensures FieldsOf(w) == FieldsOf(was).(off := off)
  {
    (was & !EXPIRE_MASK) | (off << 42)
  }

  function SetSecond(was: bv64): (w: bv64)
    ensures FieldsOf(w) == FieldsOf(was).(second := true)
  {
    was | SECOND
  }

  function SetThird(was: bv64): (w: bv64)
    ensures FieldsOf(w) == FieldsOf(was).(third := true)
  {
    was | THIRD
  }

  function ClearThird(was: bv64): (w: bv64)
    ensures FieldsOf(w) == FieldsOf(was).(third := false)
  {
    was & !THIRD
  }

  function ClearSecond(was: bv64): (w: bv64)
    ensures FieldsOf(w) == FieldsOf(was).(second := false)
  {
    was & !SECOND
  }

  function ResetChances(was: bv64): (w: bv64)
    ensures FieldsOf(w) == FieldsOf(was).(second := false, third := false)
  {
    was & !(SECOND | THIRD)
  }

  /** The next chance bit, given an already loaded word; a saturated counter writes nothing. */
  function TouchWith(was: bv64, seen: bv64): (w: bv64)
    ensures var f, g := FieldsOf(was), FieldsOf(seen);
            FieldsOf(w) == f.(second := f.second || !g.second, third := f.third || (g.second && !g.third))
  {
    if seen & SECOND == 0 then SetSecond(was) else if seen & THIRD == 0 then SetThird(was) else was
  }

  /** The word a reader offers to its compare-and-swap: the touch and the new deadline at once. */
  function TouchAndRefresh(seen: bv64, off: bv64): (w: bv64)
    requires off < 0x4_0000
    ensures FieldsOf(w) == FieldsOf(TouchWith(seen, seen)).(off := off)
  {
    TouchWith(RefreshExpire(seen, off), seen)
  }

  /** A word is determined by its fields. */
  lemma FieldsDetermine(v: bv64, w: bv64)
    ensures FieldsOf(v) == FieldsOf(w) <==> v == w
  {
  }

  /** One chance less. */
  function RevokeChance(was: bv64, seen: bv64): (w: bv64)
    ensures var f, g := FieldsOf(was), FieldsOf(seen);
            FieldsOf(w) == f.(second := f.second && g.third, third := f.third && !g.third)
  {
    if seen & THIRD != 0 then ClearThird(was) else ClearSecond(was)
  }

  function Kill(was: bv64): (w: bv64)
    ensures FieldsOf(w) == FieldsOf(was).(dead := true)
  {
    was | DEAD
  }

  function MakeFree(was: bv64): (w: bv64)
    ensures FieldsOf(w) == FieldsOf(was).(free := true)
  {
    was | FREE
  }

  const WRAP_MASK: bv64 := 0x3_FFFF
  const EXPIRE_MAX: bv64 := 0x1_FFFF

  /** The distance to a deadline on the wrapping scale: the subtraction may borrow, and is cut. */
  function Distance(off: bv64, now: bv64): bv64 { (off - now) & WRAP_MASK }

  /** Has the word's deadline passed at clock `now`? */
  predicate Expired(w: bv64, now: bv64) {
    var off := FieldsOf(w).off;
    off != 0 && (Distance(off, now) == 0 || Distance(off, now) > EXPIRE_MAX)
  }

  /** The three mask-and-compare shortcuts decide what they stand for. */
  predicate SameAliveGen(v: bv64, w: bv64)
    ensures SameAliveGen(v, w) <==> FieldsOf(v).dead == FieldsOf(w).dead && FieldsOf(v).gen == FieldsOf(w).gen
  {
    (v ^ w) & ALIVE_GEN_MASK == 0
  }

  predicate Candidate(w: bv64, tagged: bv64)
    requires tagged & TAG_MASK == tagged
    ensures Candidate(w, tagged) <==> !FieldsOf(w).dead && FieldsOf(w).tag == tagged
  {
    w & DEAD_OR_TAG == tagged
  }

  predicate Reusable(w: bv64)
    ensures Reusable(w) <==> FieldsOf(w).dead && FieldsOf(w).free
  {
    w & (DEAD | FREE) == DEAD | FREE
  }
}
