/**
 The packed meta word implements the fields the seqlock model works on: every operation on the word is the update
 the matching step makes, generation arithmetic and wrap-around included.
 */
module MetaRefinement {
  import W = MetaWord
  import S = ItemSeqlock
  import E = ExpiryScale

  const GEN_BITS: nat := 28

  // ---- The number in the low bits of a word ----

  predicate Odd(g: bv64) { g & 1 == 1 }

  function Half(g: bv64): bv64 { g >> 1 }

  function Next(g: bv64): bv64 { g + 1 }

  function Rounded(g: bv64): bv64 { g & !1 }

  /** Bits equal under a mask. */
  predicate Same(a: bv64, b: bv64, m: bv64) { Masked(a, m) == Masked(b, m) }

  function Masked(a: bv64, m: bv64): bv64 { a & m }

  /** No carry can leave the word. */
  predicate Roomy(g: bv64) { g < 0x8000_0000_0000_0000 }

  /** The low `n` bits of `g`, read as a number. */
  function Val(g: bv64, n: nat): nat {
    if n == 0 then 0 else (if Odd(g) then 1 else 0) + 2 * Val(Half(g), n - 1)
  }

  function Pow2(n: nat): nat { if n == 0 then 1 else 2 * Pow2(n - 1) }

  lemma {:induction false} ValBound(g: bv64, n: nat)
    ensures Val(g, n) < Pow2(n)
    decreases n
  {
    hide Odd, Half;
    if n > 0 {
      ValBound(Half(g), n - 1);
    }
  }

  lemma Carry(g: bv64)
    requires Roomy(g)
    ensures Odd(Next(g)) == !Odd(g) && Roomy(Half(g))
    ensures Half(Next(g)) == if Odd(g) then Next(Half(g)) else Half(g)
  {
  }

  /** Adding one to the word adds one to the number in its low bits, which wraps around. */
  lemma {:induction false} ValInc(g: bv64, n: nat)
    requires Roomy(g)
    ensures Val(Next(g), n) == if Val(g, n) + 1 == Pow2(n) then 0 else Val(g, n) + 1
    decreases n
  {
    hide Odd, Half, Next, Roomy;
    if n > 0 {
      Carry(g);
      ValInc(Half(g), n - 1);
      ValBound(Half(g), n - 1);
    }
  }

  /** `m` is the mask of the low `n` bits. */
  predicate LowMask(m: bv64, n: nat) {
    if n == 0 then m == 0 else Odd(m) && LowMask(Half(m), n - 1)
  }

  lemma NoBits(a: bv64, b: bv64)
    ensures Same(a, b, 0)
  {
  }

  lemma HalfMasks(a: bv64, m: bv64)
    ensures Half(Masked(a, m)) == Masked(Half(a), Half(m))
    ensures Odd(m) ==> Odd(Masked(a, m)) == Odd(a)
  {
  }

  lemma Halves(a: bv64, b: bv64)
    ensures a == b <==> Odd(a) == Odd(b) && Half(a) == Half(b)
  {
  }

  lemma OneBit(a: bv64, b: bv64, m: bv64)
    requires Odd(m)
    ensures Same(a, b, m) <==> Odd(a) == Odd(b) && Same(Half(a), Half(b), Half(m))
  {
    hide Odd, Half, Masked;
    HalfMasks(a, m);
    HalfMasks(b, m);
    Halves(Masked(a, m), Masked(b, m));
  }

  /** The number is that of the masked bits, and different bits make different numbers. */
  lemma {:induction false} ValMasked(a: bv64, b: bv64, m: bv64, n: nat)
    requires LowMask(m, n)
    ensures Val(a, n) == Val(b, n) <==> Same(a, b, m)
    decreases n
  {
    hide Odd, Half, Same;
    if n == 0 {
      NoBits(a, b);
    } else {
      OneBit(a, b, m);
      ValMasked(Half(a), Half(b), Half(m), n - 1);
    }
  }

  lemma RoundedIs(g: bv64)
    ensures !Odd(Rounded(g)) && Half(Rounded(g)) == Half(g)
  {
  }

  /** Clearing the last bit rounds down to an even number. */
  lemma ValRounded(g: bv64, n: nat)
    requires 0 < n
    ensures Val(Rounded(g), n) == Val(g, n) / 2 * 2
    ensures Val(g, n) % 2 == 1 <==> Odd(g)
  {
    hide Odd, Half, Rounded;
    RoundedIs(g);
  }

  lemma FourHalves(m: bv64)
    requires m < 0x1000_0000_0000_0000
    ensures var w := (m << 4) | 15;
            && Odd(w) && Odd(Half(w)) && Odd(Half(Half(w))) && Odd(Half(Half(Half(w))))
            && Half(Half(Half(Half(w)))) == m
  {
  }

  lemma FourMore(m: bv64, w: bv64, n: nat)
    requires LowMask(m, n) && m < 0x1000_0000_0000_0000 && w == (m << 4) | 15
    ensures LowMask(w, n + 4) && Pow2(n + 4) == 16 * Pow2(n)
  {
    FourHalves(m);
    hide Odd, Half;
    assert LowMask(Half(Half(w)), n + 2);
    assert Pow2(n + 2) == 4 * Pow2(n);
  }

  lemma MaskFits()
    ensures LowMask(W.GEN_MASK, GEN_BITS) && Pow2(GEN_BITS) == S.GEN_RANGE
  {
    FourMore(0, 0xF, 0);
    hide LowMask, Pow2;
    FourMore(0xF, 0xFF, 4);
    FourMore(0xFF, 0xFFF, 8);
    FourMore(0xFFF, 0xFFFF, 12);
    FourMore(0xFFFF, 0xF_FFFF, 16);
    FourMore(0xF_FFFF, 0xFF_FFFF, 20);
    FourMore(0xFF_FFFF, 0xFFF_FFFF, 24);
  }

  lemma {:induction false} ValZero(n: nat)
    ensures Val(0, n) == 0
    decreases n
  {
    if n > 0 {
      ValZero(n - 1);
    }
  }

  // ---- The fields a word stands for ----

  /** A whole word as a number. */
  function Number(g: bv64): nat { Val(g, 64) }

  /** The generation field as a number. */
  function Gen(g: bv64): nat { Val(g, GEN_BITS) }

  function Abs(w: bv64): S.Meta {
    var f := W.FieldsOf(w);
    S.Meta(f.dead, f.second, f.third, f.free, Number(f.off), Number(f.tag), Gen(f.gen))
  }

  lemma GenSame(a: bv64, b: bv64)
    ensures Gen(a) == Gen(b) <==> Masked(a, W.GEN_MASK) == Masked(b, W.GEN_MASK)
  {
    hide LowMask, Pow2, Val, Masked;
    MaskFits();
    ValMasked(a, b, W.GEN_MASK, GEN_BITS);
  }

  lemma MaskTwice(a: bv64, m: bv64)
    ensures Masked(Masked(a, m), m) == Masked(a, m)
  {
  }

  lemma GenMasked(a: bv64)
    ensures Gen(Masked(a, W.GEN_MASK)) == Gen(a)
  {
    hide Masked, Gen;
    MaskTwice(a, W.GEN_MASK);
    GenSame(Masked(a, W.GEN_MASK), a);
  }

  /** The next generation, modulo the field's range. */
  lemma GenNext(g: bv64)
    requires Roomy(g)
    ensures Gen(g) < S.GEN_RANGE && Gen(Next(g)) == (Gen(g) + 1) % S.GEN_RANGE
  {
    hide LowMask, Pow2, Val, Next, Roomy;
    MaskFits();
    ValInc(g, GEN_BITS);
    ValBound(g, GEN_BITS);
  }

  lemma GenZero(g: bv64)
    ensures Gen(g) == 0 <==> Masked(g, W.GEN_MASK) == 0
    ensures Gen(2) == 2
  {
    ValZero(GEN_BITS);
    ValZero(GEN_BITS - 2);
    GenSame(g, 0);
    Two();
  }

  lemma Two()
    ensures !Odd(2) && Half(2) == 1 && Odd(1) && Half(1) == 0
  {
  }

  /** Fitting a generation into the field means the same on bits and on numbers. */
  lemma LiveGenAgrees(g: bv64, n: nat)
    requires Gen(g) == n % S.GEN_RANGE
    ensures Gen(W.LiveGen(g)) == S.LiveGen(n)
  {
    hide Gen;
    GenZero(g);
    GenMasked(g);
    assert W.LiveGen(g) == if Masked(g, W.GEN_MASK) == 0 then 2 else Masked(g, W.GEN_MASK);
  }

  lemma FieldRoomy(w: bv64)
    ensures Roomy(W.FieldsOf(w).gen) && Roomy(Next(W.FieldsOf(w).gen))
    ensures Odd(W.FieldsOf(w).gen) == Odd(w)
  {
  }

  /** The generation of a fresh occupancy. */
  lemma NextGenAgrees(w: bv64)
    ensures Gen(W.NextGen(w)) == S.LiveGen((Abs(w).gen + 2) / 2 * 2)
  {
    hide Gen, Next, Roomy, Odd, W.FieldsOf, W.LiveGen, S.LiveGen;
    var g := W.FieldsOf(w).gen;
    FieldRoomy(w);
    GenNext(g);
    GenNext(Next(g));
    ValRounded(Next(Next(g)), GEN_BITS);
    GenRounded(Next(Next(g)));
    TwoOn(Gen(g));
    assert Next(Next(g)) == g + 2 by { TwiceNext(g); }
    LiveGenAgrees(Rounded(Next(Next(g))), (Gen(g) + 2) / 2 * 2);
  }

  lemma TwiceNext(g: bv64)
    ensures Next(Next(g)) == g + 2
  {
  }

  lemma GenRounded(g: bv64)
    ensures Gen(Rounded(g)) == Gen(g) / 2 * 2 && (Gen(g) % 2 == 1 <==> Odd(g))
  {
    ValRounded(g, GEN_BITS);
  }

  lemma TwoOn(n: nat)
    requires n < S.GEN_RANGE
    ensures ((n + 1) % S.GEN_RANGE + 1) % S.GEN_RANGE / 2 * 2 == (n + 2) / 2 * 2 % S.GEN_RANGE
  {
  }

  lemma NumberSame(a: bv64, b: bv64)
    ensures Number(a) == Number(b) <==> a == b
  {
    AllOnes();
    ValMasked(a, b, 0xFFFF_FFFF_FFFF_FFFF, 64);
  }

  lemma AllOnes()
    ensures LowMask(0xFFFF_FFFF_FFFF_FFFF, 64)
  {
    MaskFits();
    hide LowMask, Pow2;
    FourMore(0xFFF_FFFF, 0xFFFF_FFFF, 28);
    FourMore(0xFFFF_FFFF, 0xF_FFFF_FFFF, 32);
    FourMore(0xF_FFFF_FFFF, 0xFF_FFFF_FFFF, 36);
    FourMore(0xFF_FFFF_FFFF, 0xFFF_FFFF_FFFF, 40);
    FourMore(0xFFF_FFFF_FFFF, 0xFFFF_FFFF_FFFF, 44);
    FourMore(0xFFFF_FFFF_FFFF, 0xF_FFFF_FFFF_FFFF, 48);
    FourMore(0xF_FFFF_FFFF_FFFF, 0xFF_FFFF_FFFF_FFFF, 52);
    FourMore(0xFF_FFFF_FFFF_FFFF, 0xFFF_FFFF_FFFF_FFFF, 56);
    FourMore(0xFFF_FFFF_FFFF_FFFF, 0xFFFF_FFFF_FFFF_FFFF, 60);
  }

  /** Different words stand for different fields, so comparing words compares fields. */
  lemma AbsDistinct(v: bv64, w: bv64)
    ensures Abs(v) == Abs(w) <==> v == w
  {
    hide Number, Gen, W.FieldsOf, Masked;
    var f, g := W.FieldsOf(v), W.FieldsOf(w);
    NumberSame(f.off, g.off);
    NumberSame(f.tag, g.tag);
    GenSame(f.gen, g.gen);
    FieldsMasked(v);
    FieldsMasked(w);
    W.FieldsDetermine(v, w);
  }

  lemma FieldsMasked(w: bv64)
    ensures Masked(W.FieldsOf(w).gen, W.GEN_MASK) == W.FieldsOf(w).gen
  {
  }

  /** The empty slot's word is the model's. */
  lemma ZeroIsNever()
    ensures Abs(0) == S.NEVER
  {
    ValZero(64);
    ValZero(GEN_BITS);
    ZeroFields();
  }

  lemma ZeroFields()
    ensures W.FieldsOf(0) == W.Fields(false, false, false, false, 0, 0, 0)
  {
  }

  // ---- The steps ----

  /** Publish: the generation computed from the loaded word, then the whole word stored. */
  lemma PublishRefines(lay: S.Layout, s: S.State, s': S.State, w: bv64, tag: bv64, off: bv64)
    requires lay.Valid() && |s.words| == lay.size && |s'.words| == lay.size
    requires S.Enabled(lay, s, S.PublishLoad) && s.meta == Abs(w)
    requires tag & W.TAG_MASK == tag && off < 0x4_0000
    requires s.writer.tag == Number(tag) && s.writer.off == Number(off)
    requires s'.writer == S.Do(lay, s, S.PublishLoad).writer
    ensures S.Do(lay, s', S.PublishStore).meta == Abs(W.Publish(w, tag, off))
  {
    hide Number, Gen, W.FieldsOf, S.LiveGen, W.Publish, W.LiveGen, W.NextGen;
    NextGenAgrees(w);
  }

  /** beginWrite: the swapped word. */
  lemma OverwriteBeginRefines(lay: S.Layout, s: S.State, entry: seq<S.Word>, w: bv64)
    requires lay.Valid() && |s.words| == lay.size
    requires S.Enabled(lay, s, S.OverwriteBegin(entry)) && s.meta == Abs(w)
    ensures S.Do(lay, s, S.OverwriteBegin(entry)).meta == Abs(W.BeginWrite(w))
  {
    hide Abs, W.BeginWrite;
    BegunAgrees(w);
  }

  lemma BegunAgrees(w: bv64)
    ensures Abs(W.BeginWrite(w)) == Abs(w).(gen := (Abs(w).gen + 1) % S.GEN_RANGE)
  {
    hide *;
    BegunFields(w);
    WithNextGen(w, W.BeginWrite(w));
  }

  lemma BegunFields(w: bv64)
    ensures var f := W.FieldsOf(w);
            W.FieldsOf(W.BeginWrite(w)) == f.(gen := Masked(Next(f.gen), W.GEN_MASK))
  {
    hide W.FieldsOf, W.BeginWrite;
  }

  lemma WithNextGen(w: bv64, w': bv64)
    requires var f := W.FieldsOf(w); W.FieldsOf(w') == f.(gen := Masked(Next(f.gen), W.GEN_MASK))
    ensures Abs(w') == Abs(w).(gen := (Abs(w).gen + 1) % S.GEN_RANGE)
  {
    hide Number, Gen, W.FieldsOf, Next, Roomy, Odd, Masked;
    FieldRoomy(w);
    GenNext(W.FieldsOf(w).gen);
    GenMasked(Next(W.FieldsOf(w).gen));
  }

  /** endWrite: the stored word, from the one it loaded. */
  lemma OverwriteStoreRefines(lay: S.Layout, s: S.State, seen: bv64)
    requires lay.Valid() && |s.words| == lay.size
    requires S.Enabled(lay, s, S.OverwriteStore) && s.writer.seen == Abs(seen)
    ensures S.Do(lay, s, S.OverwriteStore).meta == Abs(W.EndWrite(seen))
  {
    hide Number, Gen, W.FieldsOf, W.EndWrite, W.LiveGen, S.LiveGen, Roomy, Odd;
    FieldRoomy(seen);
    GenNext(W.FieldsOf(seen).gen);
    LiveGenAgrees(Next(W.FieldsOf(seen).gen), Abs(seen).gen + 1);
  }

  /** RefreshExpire: the stored word, from the one it loaded. */
  lemma RefreshStoreRefines(lay: S.Layout, s: S.State, seen: bv64, off: bv64)
    requires lay.Valid() && |s.words| == lay.size && off < 0x4_0000
    requires S.Enabled(lay, s, S.RefreshStore) && s.writer.seen == Abs(seen) && s.writer.off == Number(off)
    ensures S.Do(lay, s, S.RefreshStore).meta == Abs(W.RefreshExpire(seen, off))
  {
    hide Number, Gen, W.FieldsOf, W.RefreshExpire;
  }

  /** Kill and MakeFree. */
  lemma FlagsRefine(lay: S.Layout, s: S.State, w: bv64)
    requires lay.Valid() && |s.words| == lay.size && s.meta == Abs(w)
    ensures S.Enabled(lay, s, S.Kill) ==> S.Do(lay, s, S.Kill).meta == Abs(W.Kill(w))
    ensures S.Enabled(lay, s, S.FreeEnd) ==> S.Do(lay, s, S.FreeEnd).meta == Abs(W.MakeFree(w))
  {
    hide Number, Gen, W.FieldsOf, W.Kill, W.MakeFree;
  }

  /** RevokeChance, given a word loaded before, and ResetChances. */
  lemma ChancesRefine(lay: S.Layout, s: S.State, w: bv64, seen: bv64)
    requires lay.Valid() && |s.words| == lay.size && s.meta == Abs(w) && s.writer.Idle?
    ensures var third := Abs(seen).third;
            S.Do(lay, s, S.ClearChances(!third, third)).meta == Abs(W.RevokeChance(w, seen))
    ensures S.Do(lay, s, S.ClearChances(true, true)).meta == Abs(W.ResetChances(w))
  {
    hide Number, Gen, W.FieldsOf, W.RevokeChance, W.ResetChances;
  }

  /** TouchWith, given the word the reader loaded. */
  lemma TouchRefines(lay: S.Layout, s: S.State, r: nat, w: bv64, seen: bv64)
    requires lay.Valid() && |s.words| == lay.size && s.meta == Abs(w)
    requires S.Enabled(lay, s, S.Touch(r)) && S.ReaderOf(s, r).meta == Abs(seen)
    ensures S.Do(lay, s, S.Touch(r)).meta == Abs(W.TouchWith(w, seen))
  {
    hide Number, Gen, W.FieldsOf, W.TouchWith;
  }

  /** TouchAndRefreshExpire: the swap succeeds exactly when the model's step is enabled, and stores its word. */
  lemma TouchAndRefreshRefines(lay: S.Layout, s: S.State, r: nat, w: bv64, seen: bv64, off: bv64)
    requires lay.Valid() && |s.words| == lay.size && s.meta == Abs(w) && off < 0x4_0000
    requires S.ReaderOf(s, r).Accepted? && S.ReaderOf(s, r).meta == Abs(seen)
    ensures S.Enabled(lay, s, S.TouchAndRefresh(r, Number(off))) <==> w == seen
    ensures w == seen ==> S.Do(lay, s, S.TouchAndRefresh(r, Number(off))).meta == Abs(W.TouchAndRefresh(seen, off))
  {
    hide Number, Gen, W.FieldsOf, W.TouchWith, W.TouchAndRefresh, Abs;
    AbsDistinct(w, seen);
    if w == seen {
      TouchedAndRefreshed(w, off);
    }
  }

  lemma TouchedAndRefreshed(w: bv64, off: bv64)
    requires off < 0x4_0000
    ensures S.Touched(Abs(w), Abs(w)).(expireOff := Number(off)) == Abs(W.TouchAndRefresh(w, off))
  {
    hide Number, Gen, W.FieldsOf, W.TouchWith, W.TouchAndRefresh;
  }

  /** SnapshotInto's test: one mask-and-compare and a parity bit decide what the model decides on fields. */
  lemma ValidateRefines(lay: S.Layout, s: S.State, r: nat, w: bv64, seen: bv64)
    requires lay.Valid() && |s.words| == lay.size && s.meta == Abs(w)
    requires S.Enabled(lay, s, S.Validate(r)) && S.ReaderOf(s, r).meta == Abs(seen)
    ensures S.ReaderOf(S.Do(lay, s, S.Validate(r)), r).Accepted? <==> W.SameAliveGen(w, seen) && seen & 1 == 0
  {
    hide Number, Gen, W.FieldsOf, W.SameAliveGen, Masked, Odd, Roomy;
    GenSame(W.FieldsOf(w).gen, W.FieldsOf(seen).gen);
    FieldsMasked(w);
    FieldsMasked(seen);
    GenRounded(W.FieldsOf(seen).gen);
    FieldRoomy(seen);
    OddIs(seen);
  }

  lemma OddIs(w: bv64)
    ensures Odd(w) <==> w & 1 != 0
  {
  }

  /** What a reader or a writer looks for before it starts: an occupied slot, and a live one. */
  lemma OccupiedRefines(w: bv64)
    ensures Abs(w) != S.NEVER <==> w != 0
    ensures Abs(w).dead <==> w & W.DEAD != 0
  {
    ZeroIsNever();
    AbsDistinct(w, 0);
  }

  // ---- Deadlines ----

  const OFF_BITS: nat := 18

  /** `off - now` without a borrow: the low bits are those of the difference. */
  function Minus(off: bv64, now: bv64): bv64 { off - now + 0x4_0000 }

  predicate Offset(x: bv64) { x < 0x4_0000 }

  lemma OffsetMask()
    ensures LowMask(W.WRAP_MASK, OFF_BITS) && Pow2(OFF_BITS) == E.WRAP
  {
    FourMore(0, 0xF, 0);
    FourMore(0xF, 0xFF, 4);
    hide LowMask, Pow2;
    FourMore(0xFF, 0xFFF, 8);
    FourMore(0xFFF, 0xFFFF, 12);
    TwoMore();
  }

  lemma TwoMore()
    requires LowMask(0xFFFF, 16) && Pow2(16) == 0x1_0000
    ensures LowMask(0x3_FFFF, 18) && Pow2(18) == 0x4_0000
  {
    TwoHalves();
    hide Odd, Half;
    assert LowMask(Half(0x3_FFFF), 17);
    assert Pow2(17) == 0x2_0000;
  }

  lemma TwoHalves()
    ensures Odd(0x3_FFFF) && Odd(Half(0x3_FFFF)) && Half(Half(0x3_FFFF)) == 0xFFFF
  {
  }

  lemma MinusSteps(off: bv64, now: bv64)
    requires Offset(off) && Offset(now) && now != 0
    ensures Offset(now - 1) && Next(now - 1) == now && Roomy(now - 1)
    ensures Next(Minus(off, now)) == Minus(off, now - 1) && Roomy(Minus(off, now))
  {
  }

  lemma MinusNothing(off: bv64)
    requires Offset(off)
    ensures Same(Minus(off, 0), off, W.WRAP_MASK)
  {
  }

  /** The low bits of the difference are the distance on the wrapping scale. */
  lemma {:induction false} ValMinus(off: bv64, now: bv64)
    requires Offset(off) && Offset(now)
    ensures Val(Minus(off, now), OFF_BITS) == (Val(off, OFF_BITS) - Val(now, OFF_BITS)) % E.WRAP
    decreases Val(now, OFF_BITS)
  {
    hide Val, LowMask, Pow2, Next, Minus, Offset, Roomy, Same;
    OffsetMask();
    ValBound(off, OFF_BITS);
    ValBound(now, OFF_BITS);
    ValBound(Minus(off, now), OFF_BITS);
    if now == 0 {
      MinusNothing(off);
      ValMasked(Minus(off, 0), off, W.WRAP_MASK, OFF_BITS);
      ValZero(OFF_BITS);
    } else {
      MinusSteps(off, now);
      ValInc(now - 1, OFF_BITS);
      ValNonZero(now);
      ValInc(Minus(off, now), OFF_BITS);
      ValMinus(off, now - 1);
    }
  }

  lemma ValNonZero(x: bv64)
    requires Offset(x) && x != 0
    ensures Val(x, OFF_BITS) != 0
  {
    hide Val, LowMask, Pow2;
    OffsetMask();
    ValMasked(x, 0, W.WRAP_MASK, OFF_BITS);
    ValZero(OFF_BITS);
  }

  /** Nothing above the low `k` bits. */
  predicate Small(x: bv64, k: nat) {
    if k == 0 then x == 0 else Small(Half(x), k - 1)
  }

  /** Bit `k` is set. */
  predicate Top(x: bv64, k: nat) {
    if k == 0 then Odd(x) else Top(Half(x), k - 1)
  }

  lemma {:induction false} ValSmall(x: bv64, k: nat, n: nat)
    requires Small(x, k) && k <= n
    ensures Val(x, n) == Val(x, k)
    decreases k
  {
    if k == 0 {
      ValZero(n);
    } else {
      hide Half, Odd;
      ValSmall(Half(x), k - 1, n - 1);
    }
  }

  lemma {:induction false} ValTop(x: bv64, k: nat)
    ensures Val(x, k + 1) >= Pow2(k) <==> Top(x, k)
    decreases k
  {
    hide Half, Odd;
    if k > 0 {
      ValTop(Half(x), k - 1);
    } else {
      assert Val(Half(x), 0) == 0;
    }
  }

  /** Four bits down. */
  function Down(x: bv64): bv64 { x >> 4 }

  lemma Shifted(x: bv64)
    ensures Half(Half(Half(Half(x)))) == Down(x)
  {
  }

  lemma FourDown(x: bv64, k: nat)
    ensures Small(x, k + 4) <==> Small(Down(x), k)
    ensures Top(x, k + 4) <==> Top(Down(x), k)
  {
    Shifted(x);
    hide Half, Odd, Down;
    var h := Half(Half(x));
    assert Small(x, k + 4) <==> Small(h, k + 2);
    assert Top(x, k + 4) <==> Top(h, k + 2);
    assert Small(h, k + 2) <==> Small(Half(Half(h)), k);
    assert Top(h, k + 2) <==> Top(Half(Half(h)), k);
  }

  lemma SixteenDown(x: bv64)
    ensures Down(Down(Down(Down(x)))) == x >> 16
  {
  }

  lemma OffsetIs(x: bv64)
    requires Offset(x)
    ensures Small(x, OFF_BITS) && (Top(x, 17) <==> x > W.EXPIRE_MAX)
  {
    hide Small, Top, Down, Offset;
    SixteenDown(x);
    var a := Down(x);
    var b := Down(a);
    var c := Down(b);
    FourDown(x, 14);
    FourDown(x, 13);
    FourDown(a, 10);
    FourDown(a, 9);
    FourDown(b, 6);
    FourDown(b, 5);
    FourDown(c, 2);
    FourDown(c, 1);
    LastTwo(x);
  }

  lemma LastTwo(x: bv64)
    requires Offset(x)
    ensures Small(x >> 16, 2) && (Top(x >> 16, 1) <==> x > W.EXPIRE_MAX)
  {
    LastTwoBits(x);
    hide Odd, Half, Offset;
    assert Small(Half(x >> 16), 1);
  }

  lemma LastTwoBits(x: bv64)
    requires Offset(x)
    ensures Half(Half(x >> 16)) == 0 && (Odd(Half(x >> 16)) <==> x > W.EXPIRE_MAX)
  {
  }

  lemma MinusMasked(off: bv64, now: bv64)
    ensures Same(Minus(off, now), W.Distance(off, now), W.WRAP_MASK) && Offset(W.Distance(off, now))
  {
    LowStays(off - now);
  }

  lemma LowStays(y: bv64)
    ensures Same(y + 0x4_0000, y & W.WRAP_MASK, W.WRAP_MASK) && Offset(y & W.WRAP_MASK)
  {
  }

  /** Number of an offset, whatever width it is read in. */
  lemma NumberOf(x: bv64)
    requires Offset(x)
    ensures Number(x) == Val(x, OFF_BITS) < E.WRAP && (Number(x) == 0 <==> x == 0)
    ensures Number(x) > E.EXPIRE_MAX <==> x > W.EXPIRE_MAX
  {
    hide Val, Small, Top, Pow2, LowMask;
    OffsetIs(x);
    OffsetMask();
    ValSmall(x, OFF_BITS, 64);
    ValBound(x, OFF_BITS);
    ValTop(x, 17);
    HalfScale();
    ValZero(OFF_BITS);
    if x != 0 {
      ValNonZero(x);
    }
  }

  lemma HalfScale()
    ensures Pow2(17) == E.EXPIRE_MAX + 1
  {
    OffsetMask();
    assert Pow2(18) == 2 * Pow2(17);
  }

  lemma OffField(w: bv64)
    ensures Offset(W.FieldsOf(w).off)
  {
    hide W.FieldsOf;
  }

  /** The test on the word's bits, with its wrap-around subtraction, is the one on the scale. */
  lemma ExpiredRefines(w: bv64, now: bv64)
    requires Offset(now)
    ensures W.Expired(w, now) <==> E.Expired(Abs(w).expireOff, Number(now))
  {
    hide Val, Number, Offset, Minus, Same, W.FieldsOf, W.Distance;
    OffField(w);
    var off := W.FieldsOf(w).off;
    NumberOf(off);
    NumberOf(now);
    ValMinus(off, now);
    MinusMasked(off, now);
    NumberOf(W.Distance(off, now));
    SameNumber(off, now, W.Distance(off, now));
  }

  lemma SameNumber(off: bv64, now: bv64, diff: bv64)
    requires Same(Minus(off, now), diff, W.WRAP_MASK)
    ensures Val(Minus(off, now), OFF_BITS) == Val(diff, OFF_BITS)
  {
    hide Val, LowMask, Pow2, Minus, Same;
    OffsetMask();
    ValMasked(Minus(off, now), diff, W.WRAP_MASK, OFF_BITS);
  }
}
