/** The batch reads of one shard. */
module BatchLookups {
  import opened Options
  import opened SlotTable
  import opened FlatHashMaps
  import opened ShardLedger
  import opened ShardState
  import opened ShardEffects
  import opened NodeCosts
  import opened Shards
  import opened BatchAnswers
  import ExpiryScale

  const SMALL_BATCH := 4
  const GROUP_SIZE := 12

  /** What the walk found for a key: the end of its probe chain, or the first live slot with its tag and that slot's
      meta word (and occupant) at that moment. */
  datatype Candidate<K, V> = Miss | At(idx: nat, was: Slot<K, V>)

  /** A miss is definite; a candidate lives and carries the key's tag, and nothing else on the way to it does. */
  ghost predicate Found<K, V>(s: seq<Slot<K, V>>, hash: K -> nat, key: K, c: Candidate<K, V>)
    requires Unique(s) && |s| > 0
  {
    match c
    case Miss => key !in Contents(s)
    case At(idx, was) =>
      && idx < |s| && was == s[idx] && Tagged(was, TagOf(hash(key)))
      && forall q | Home(hash(key), |s|) <= q < Home(hash(key), |s|) + Steps(Home(hash(key), |s|), idx, |s|) ::
           !Tagged(s[Wrap(q, |s|)], TagOf(hash(key)))
  }

  predicate Tagged<K, V>(slot: Slot<K, V>, tag: nat) { slot.Live? && slot.tag == tag }

  /** The candidate is the key's own slot. */
  predicate Straight<K(==), V>(c: Candidate<K, V>, key: K) { c.At? && c.was.Live? && c.was.key == key }

  /** Walks the probe chain to its first candidate; `first` is the home slot's meta word, loaded ahead. */
  method FirstCandidate<K, V>(t: FlatHashMap<K, V>, hash: K -> nat, key: K, first: Slot<K, V>)
    returns (c: Candidate<K, V>)
    requires TableInv(t.slots[..], t.overflows[..], hash)
    requires t.slots.Length > 0 && first == t.slots[Home(hash(key), t.slots.Length)]
    ensures Found(t.slots[..], hash, key, c)
  {
    ghost var s, over := t.slots[..], t.overflows[..];
    var n := t.slots.Length;
    var tagged, home := TagOf(hash(key)), Home(hash(key), n);
    var groupEnd := GROUP * (Group(home) + 1);
    SizedIsWholeGroups(n);
    var pos, meta := home, first;
    while true
      invariant home <= pos < home + n && meta == s[Wrap(pos, n)]
      invariant forall q | home <= q < pos :: Occupied(s, q) && !Match(s[Wrap(q, n)], key)
      invariant forall q | home <= q < pos :: !Tagged(s[Wrap(q, n)], tagged)
      decreases home + n - pos
    {
      StretchIsShort(s, home, pos - home);
      if meta.Empty? {
        NoMatchBeforeEmpty(s, over, hash, key, pos);
        return Miss;
      }
      if pos == groupEnd && t.overflows[Group(home)] == 0 {
        NoMatchInGroup(s, over, hash, key, pos);
        return Miss;
      }
      if meta.Live? && meta.tag == tagged {
        assert Steps(home, Wrap(pos, n), n) == pos - home;
        return At(Wrap(pos, n), meta);
      }
      assert meta.Live? ==> Placed(s, hash, Wrap(pos, n));
      assert Occupied(s, pos);
      StretchIsShort(s, home, pos + 1 - home);
      pos := pos + 1;
      meta := t.slots[Wrap(pos, n)];
    }
  }

  /** A live item other than the key's own that a probe for `tag` takes for a candidate, while `live` are the keys
      held. */
  ghost predicate Rival<K, V>(slot: Slot<K, V>, live: set<K>, tag: nat) {
    Tagged(slot, tag) && slot.key in live
  }

  /** No candidate lies before slot `idx` on the key's probe path. */
  ghost predicate Clear<K, V>(s: seq<Slot<K, V>>, live: set<K>, hash: K -> nat, key: K, idx: nat)
    requires idx < |s|
  {
    var home := Home(hash(key), |s|);
    forall q | home <= q < home + Steps(home, idx, |s|) :: !Rival(s[Wrap(q, |s|)], live, TagOf(hash(key)))
  }

  /** The key is held, and is the first candidate of its own probe: a straight hit. `s` may be any earlier table, as
      long as items only left since; `live` are the keys held now. */
  ghost predicate StraightAmong<K, V>(s: seq<Slot<K, V>>, live: set<K>, hash: K -> nat, key: K) {
    key in live && exists idx: nat :: idx < |s| && s[idx].Live? && s[idx].key == key && Clear(s, live, hash, key, idx)
  }

  ghost function Straights<K, V>(s: seq<Slot<K, V>>, live: set<K>, hash: K -> nat, keys: seq<K>): set<K> {
    set key | key in keys && StraightAmong(s, live, hash, key)
  }

  /** Items only left since `s0`: a slot is a candidate now exactly if it was one and its key is still held. */
  lemma StillRival<K, V>(s0: seq<Slot<K, V>>, over0: seq<nat>, s: seq<Slot<K, V>>, over: seq<nat>, hash: K -> nat,
                         i: nat, tag: nat)
    requires TableInv(s0, over0, hash) && TableInv(s, over, hash) && OnlyDrops(s0, s) && i < |s|
    ensures Tagged(s[i], tag) <==> Rival(s0[i], Contents(s).Keys, tag)
  {
    hide Counted, Reaches, UsedSet, Sized;
    if s[i].Live? {
      ContentsAt(s, i);
      assert Placed(s, hash, i) && Placed(s0, hash, i);
    } else if Rival(s0[i], Contents(s).Keys, tag) {
      var j := SlotFor(s, s0[i].key);
      assert false;
    }
  }

  /** The walk's candidate is the key's own slot exactly for a straight hit. */
  lemma StraightIs<K, V>(s0: seq<Slot<K, V>>, over0: seq<nat>, s: seq<Slot<K, V>>, over: seq<nat>, hash: K -> nat,
                         key: K, c: Candidate<K, V>)
    requires TableInv(s0, over0, hash) && TableInv(s, over, hash) && OnlyDrops(s0, s) && |s| > 0
    requires Found(s, hash, key, c)
    ensures Straight(c, key) <==> StraightAmong(s0, Contents(s).Keys, hash, key)
  {
    hide TableInv, Contents;
    AreUnique(s0, over0, hash);
    AreUnique(s, over, hash);
    var live, home, tag := Contents(s).Keys, Home(hash(key), |s|), TagOf(hash(key));
    forall i: nat | i < |s| ensures Tagged(s[i], tag) <==> Rival(s0[i], live, tag) {
      StillRival(s0, over0, s, over, hash, i, tag);
    }
    if Straight(c, key) {
      ContentsAt(s, c.idx);
      assert Clear(s0, live, hash, key, c.idx);
    }
    if StraightAmong(s0, live, hash, key) {
      var idx: nat :| idx < |s0| && s0[idx].Live? && s0[idx].key == key && Clear(s0, live, hash, key, idx);
      LiveTag(s0, over0, hash, idx);
      assert Tagged(s[idx], tag);
      var i, j := Steps(home, c.idx, |s|), Steps(home, idx, |s|);
      assert Wrap(home + i, |s|) == c.idx && Wrap(home + j, |s|) == idx;
    }
  }

  lemma AreUnique<K, V>(s: seq<Slot<K, V>>, over: seq<nat>, hash: K -> nat)
    requires TableInv(s, over, hash)
    ensures Unique(s) && |s| > 0
  {
  }

  lemma LiveTag<K, V>(s: seq<Slot<K, V>>, over: seq<nat>, hash: K -> nat, i: nat)
    requires TableInv(s, over, hash) && i < |s| && s[i].Live?
    ensures s[i].tag == TagOf(hash(s[i].key))
  {
    assert Placed(s, hash, i);
  }

  /** A key that shares its tag with no other live item is a straight hit whenever it is held. */
  lemma NoClashIsStraight<K, V>(s: seq<Slot<K, V>>, over: seq<nat>, hash: K -> nat, key: K)
    requires TableInv(s, over, hash) && key in Contents(s)
    requires forall i | 0 <= i < |s| && Tagged(s[i], TagOf(hash(key))) :: s[i].key == key
    ensures StraightAmong(s, Contents(s).Keys, hash, key)
  {
    hide Counted, Reaches, UsedSet, Sized;
    var idx := SlotFor(s, key);
    var home := Home(hash(key), |s|);
    forall q | home <= q < home + Steps(home, idx, |s|)
      ensures !Rival(s[Wrap(q, |s|)], Contents(s).Keys, TagOf(hash(key)))
    {
      assert Wrap(q, |s|) != Wrap(home + Steps(home, idx, |s|), |s|);
    }
    assert Clear(s, Contents(s).Keys, hash, key, idx);
  }

  lemma StillThere<K, V>(s0: seq<Slot<K, V>>, s: seq<Slot<K, V>>, key: K, idx: nat)
    requires Unique(s0) && Unique(s) && OnlyDrops(s0, s) && idx < |s0| && s0[idx].Live? && s0[idx].key == key
    ensures key in Contents(s) <==> s[idx].Live? && s[idx].key == key
    ensures key in Contents(s) ==> Contents(s)[key] == Entry(s[idx].value, s[idx].expireOff)
  {
    if key in Contents(s) {
      var i := SlotFor(s, key);
      var j := SlotFor(s0, key);
    }
    if s[idx].Live? && s[idx].key == key {
      ContentsAt(s, idx);
    }
  }

  lemma ContentsOf<K, V>(s: seq<Slot<K, V>>, key: K, idx: nat)
    requires Unique(s) && idx < |s| && s[idx].Live? && s[idx].key == key
    ensures key in Contents(s) && Contents(s)[key] == Entry(s[idx].value, s[idx].expireOff)
  {
  }

  lemma WornAt<K, V>(m0: map<K, Entry<V>>, m: map<K, Entry<V>>, nowOff: nat, refresh: Option<nat>, key: K)
    requires Worn(m0, m, nowOff, refresh) && key in m
    ensures key in m0 && m[key].value == m0[key].value
    ensures !Lives(m0[key], nowOff) ==> m[key] == m0[key]
  {
  }

  lemma FoundAt<K, V>(s: seq<Slot<K, V>>, hash: K -> nat, key: K, c: Candidate<K, V>)
    requires Unique(s) && |s| > 0 && Found(s, hash, key, c)
    ensures c.Miss? ==> key !in Contents(s)
    ensures c.At? ==> c.idx < |s| && c.was == s[c.idx] && c.was.Live?
  {
  }

  lemma PlainRead<K, V>(m: map<K, Entry<V>>, key: K, nowOff: nat, refresh: Option<nat>)
    ensures key !in m ==> Answer(m, key, nowOff) == None && After(m, key, nowOff, refresh) == m
    ensures key in m ==> After(m, key, nowOff, refresh) == Judged(m, key, m[key], nowOff, refresh)
    ensures key in m && ExpiryScale.Expired(m[key].expireOff, nowOff) ==>
              Answer(m, key, nowOff) == None && After(m, key, nowOff, refresh) == m - {key}
    ensures key in m && !ExpiryScale.Expired(m[key].expireOff, nowOff) ==>
              && Answer(m, key, nowOff) == Some(m[key].value)
              && After(m, key, nowOff, refresh)
              == if refresh.Some? then m[key := m[key].(expireOff := refresh.value)] else m
  {
  }

  lemma JudgedIs<K, V>(m: map<K, Entry<V>>, key: K, e: Entry<V>, nowOff: nat, refresh: Option<nat>)
    requires key in m
    ensures ExpiryScale.Expired(e.expireOff, nowOff) ==> Judged(m, key, e, nowOff, refresh) == m - {key}
    ensures !ExpiryScale.Expired(e.expireOff, nowOff) ==>
              Judged(m, key, e, nowOff, refresh) == if refresh.Some? then m[key := m[key].(expireOff := refresh.value)]
                else m
    ensures Lives(e, nowOff) <==> !ExpiryScale.Expired(e.expireOff, nowOff)
  {
  }

  /** What validating one candidate answers and leaves. */
  ghost predicate Validated<K, V>(m0: map<K, Entry<V>>, m: map<K, Entry<V>>, key: K, straight: bool, nowOff: nat,
                                  refresh: Option<nat>,
                                  r: Option<V>, m': map<K, Entry<V>>)
  {
    if straight && key in m && key in m0 then
      r == Answer(m0, key, nowOff) && m' == Judged(m, key, m0[key], nowOff, refresh)
    else r == Answer(m, key, nowOff) && m' == After(m, key, nowOff, refresh)
  }

  lemma ValidatedIs<K, V>(m0: map<K, Entry<V>>, m: map<K, Entry<V>>, key: K, straight: bool, nowOff: nat,
                          refresh: Option<nat>)
    ensures straight && key in m && key in m0 ==>
              Validated(m0, m, key, straight, nowOff, refresh, Answer(m0, key, nowOff),
                Judged(m, key, m0[key], nowOff, refresh))
    ensures !(straight && key in m && key in m0) ==>
              Validated(m0, m, key, straight, nowOff, refresh, Answer(m, key, nowOff), After(m, key, nowOff, refresh))
  {
  }

  lemma SameLength<K, V>(a: seq<Slot<K, V>>, b: seq<Slot<K, V>>)
    requires OnlyDrops(a, b)
    ensures |a| == |b|
  {
  }

  lemma WornKeys<K, V>(m0: map<K, Entry<V>>, m: map<K, Entry<V>>, nowOff: nat, refresh: Option<nat>, key: K)
    requires Worn(m0, m, nowOff, refresh) && key !in m0
    ensures key !in m
  {
  }

  // ---- What reads report ----

  /** From `m` to `m'` values stay, and exactly the keys that left are reported after `before`: once each, with their
      value, as expired. */
  ghost predicate Drops<K, V>(m: map<K, Entry<V>>, m': map<K, Entry<V>>, before: seq<Deletion<K, V>>,
                              after: seq<Deletion<K, V>>)
  {
    && (forall k | k in m' :: k in m && m'[k].value == m[k].value)
    && before <= after
    && var tail := after[|before|..];
       && m.Keys - m'.Keys == KeysOf(tail)
       && (forall i | 0 <= i < |tail| ::
             tail[i].key in m && tail[i].value == m[tail[i].key].value && tail[i].cause == Expiration)
       && (forall i, j | 0 <= i < j < |tail| :: tail[i].key != tail[j].key)
  }

  lemma DropsNone<K, V>(m: map<K, Entry<V>>, reported: seq<Deletion<K, V>>)
    ensures Drops(m, m, reported, reported)
  {
    assert m.Keys - m.Keys == {};
  }

  lemma DropsKey<K, V>(m: map<K, Entry<V>>, key: K, reported: seq<Deletion<K, V>>)
    requires key in m
    ensures Drops(m, m - {key}, reported, reported + [Deletion(key, m[key].value, Expiration)])
  {
    var d := Deletion(key, m[key].value, Expiration);
    assert (reported + [d])[|reported|..] == [d];
    assert KeysOf([d]) == {key} by { assert d in [d]; }
  }

  lemma DropsTouched<K, V>(m: map<K, Entry<V>>, key: K, off: nat, reported: seq<Deletion<K, V>>)
    requires key in m
    ensures Drops(m, m[key := m[key].(expireOff := off)], reported, reported)
  {
    var m' := m[key := m[key].(expireOff := off)];
    assert m'.Keys == m.Keys;
  }

  lemma DropsMore<K, V>(m: map<K, Entry<V>>, m': map<K, Entry<V>>, m'': map<K, Entry<V>>, a: seq<Deletion<K, V>>,
                        b: seq<Deletion<K, V>>, c: seq<Deletion<K, V>>)
    requires Drops(m, m', a, b) && Drops(m', m'', b, c)
    ensures Drops(m, m'', a, c)
  {
    var x, y, z := b[|a|..], c[|b|..], c[|a|..];
    assert z == x + y;
    KeysOfBoth(x, y);
    assert m.Keys - m''.Keys == (m.Keys - m'.Keys) + (m'.Keys - m''.Keys);
    forall i, j | 0 <= i < j < |z| ensures z[i].key != z[j].key {
      if i < |x| <= j {
        assert x[i] in x && y[j - |x|] in y;
        assert x[i].key in KeysOf(x) && y[j - |x|].key in KeysOf(y);
      }
    }
  }

  lemma KeysOfBoth<K, V>(x: seq<Deletion<K, V>>, y: seq<Deletion<K, V>>)
    ensures KeysOf(x + y) == KeysOf(x) + KeysOf(y)
  {
    assert forall d :: d in x + y <==> d in x || d in y;
  }

  /** A plain read. */
  method Read<K, V>(sh: Shard<K, V>, key: K, nowOff: nat, refresh: Option<nat>) returns (r: Option<V>)
    requires sh.Valid()
    modifies sh`deadCount, sh`weight, sh`live, sh`dirty, sh`reported, sh.storage.slots, sh.storage.overflows, sh.policy
    ensures sh.Valid() && OnlyDrops(old(sh.storage.slots[..]), sh.storage.slots[..])
    ensures (r, sh.Map()) == (Answer(old(sh.Map()), key, nowOff), After(old(sh.Map()), key, nowOff, refresh))
    ensures Drops(old(sh.Map()), sh.Map(), old(sh.reported), sh.reported)
  {
    hide *;
    ghost var m, log := sh.Map(), sh.reported;
    PlainRead(m, key, nowOff, refresh);
    DropsNone(m, log);
    if key in m {
      DropsKey(m, key, log);
      if refresh.Some? {
        DropsTouched(m, key, refresh.value, log);
      }
    }
    r := sh.Get(key, nowOff, refresh);
  }

  /** Validates a candidate against the table as it is now; anything off the straight path is a plain read. */
  method Validate<K, V>(sh: Shard<K, V>, key: K, c: Candidate<K, V>, nowOff: nat, refresh: Option<nat>,
                        ghost s0: seq<Slot<K, V>>) returns (r: Option<V>)
    requires sh.Valid() && Unique(s0) && |s0| > 0 && OnlyDrops(s0, sh.storage.slots[..]) && Found(s0, sh.hash, key, c)
    requires Worn(Contents(s0), sh.Map(), nowOff, refresh)
    modifies sh`deadCount, sh`weight, sh`live, sh`dirty, sh`reported, sh.storage.slots, sh.storage.overflows, sh.policy
    ensures sh.Valid() && OnlyDrops(s0, sh.storage.slots[..])
    ensures Validated(Contents(s0), old(sh.Map()), key, Straight(c, key), nowOff, refresh, r, sh.Map())
    ensures Drops(old(sh.Map()), sh.Map(), old(sh.reported), sh.reported)
  {
    hide Core, Weight, Contents, OnlyDrops, Found, Worn, Judged, After, Answer, Validated, Drops, Priced;
    ghost var s, m0, m := sh.storage.slots[..], Contents(s0), sh.Map();
    SameLength(s0, s);
    FoundAt(s0, sh.hash, key, c);
    PlainRead(m, key, nowOff, refresh);
    ValidatedIs(m0, m, key, Straight(c, key), nowOff, refresh);
    DropsNone(m, sh.reported);
    if c.Miss? {
      WornKeys(m0, m, nowOff, refresh, key);
      return None;
    }
    var now := sh.storage.slots[c.idx];
    if Straight(c, key) {
      StillThere(s0, s, key, c.idx);
      ContentsOf(s0, key, c.idx);
    }
    if !now.Live? || now.key != c.was.key || now.key != key {
      r := Read(sh, key, nowOff, refresh);
      DropsFurther(s0, s, sh.storage.slots[..]);
      return;
    }
    WornAt(m0, m, nowOff, refresh, key);
    JudgedIs(m, key, m0[key], nowOff, refresh);
    PlainRead(m0, key, nowOff, refresh);
    if ExpiryScale.Expired(c.was.expireOff, nowOff) {
      ContentsOf(s, key, c.idx);
      DropsKey(m, key, sh.reported);
      sh.KillAt(c.idx, Expiration);
      DropsFurther(s0, s, sh.storage.slots[..]);
      return None;
    }
    if refresh.Some? {
      DropsTouched(m, key, refresh.value, sh.reported);
      RefreshedIsAtRest(sh.View(), sh.hash, sh.cost, sh.cap, c.idx, refresh.value);
      DropsOne(s0, s, c.idx, now.(expireOff := refresh.value));
      sh.storage.slots[c.idx] := now.(expireOff := refresh.value);
      assert sh.storage.slots[..] == s[c.idx := now.(expireOff := refresh.value)];
      DropsNothing(s);
      DropsOne(s, s, c.idx, now.(expireOff := refresh.value));
      AtRestIsLinked(sh.View(), sh.hash, sh.cost, sh.cap);
      PricedKept(sh.policy.nodes, s, sh.stored, sh.policy.nodes, sh.storage.slots[..], sh.stored, sh.cost);
    }
    return Some(now.value);
  }

  lemma PipedStep<K, V>(m0: map<K, Entry<V>>, keys: seq<K>, key: K, straight: set<K>, nowOff: nat, refresh: Option<nat>,
                        r: Option<V>, m': map<K, Entry<V>>)
    requires Validated(m0, Piped(m0, keys, straight, nowOff, refresh).1, key, key in straight, nowOff, refresh, r, m')
    ensures Piped(m0, keys + [key], straight, nowOff, refresh)
            == (Piped(m0, keys, straight, nowOff, refresh).0 + [r], m')
  {
    hide Answer, After, Judged;
    assert (keys + [key])[..|keys|] == keys;
  }

  lemma PipedNone<K, V>(m0: map<K, Entry<V>>, straight: set<K>, nowOff: nat, refresh: Option<nat>)
    ensures Piped(m0, [], straight, nowOff, refresh) == ([], m0)
  {
  }

  ghost predicate AllFound<K, V>(s: seq<Slot<K, V>>, hash: K -> nat, keys: seq<K>, cs: seq<Candidate<K, V>>)
    requires Unique(s) && |s| > 0
  {
    |cs| <= |keys| && forall i | 0 <= i < |cs| :: Found(s, hash, keys[i], cs[i])
  }

  lemma StraightKey<K, V>(s0: seq<Slot<K, V>>, over0: seq<nat>, s: seq<Slot<K, V>>, over: seq<nat>, hash: K -> nat,
                          keys: seq<K>, cs: seq<Candidate<K, V>>, i: nat)
    requires TableInv(s0, over0, hash) && TableInv(s, over, hash) && OnlyDrops(s0, s) && |s| > 0
    requires AllFound(s, hash, keys, cs) && |cs| == |keys| && i < |keys|
    ensures Found(s, hash, keys[i], cs[i])
    ensures keys[i] in Straights(s0, Contents(s).Keys, hash, keys) <==> Straight(cs[i], keys[i])
  {
    hide Found, Straight, StraightAmong, TableInv, Contents;
    AreUnique(s, over, hash);
    StraightIs(s0, over0, s, over, hash, keys[i], cs[i]);
  }

  lemma ShardTable<K, V>(sh: Shard<K, V>)
    requires sh.Valid()
    ensures TableInv(sh.storage.slots[..], sh.storage.overflows[..], sh.hash)
    ensures sh.storage.slots.Length > 0 && Unique(sh.storage.slots[..]) && sh.Map() == Contents(sh.storage.slots[..])
  {
    hide Core, Contents, Weight;
    AtRestTable(sh.View(), sh.hash, sh.cost, sh.cap);
    TableIsSized(sh.storage.slots[..], sh.storage.overflows[..], sh.hash);
  }

  /** The group's reads: every home slot first, then every walk. */
  method Candidates<K, V>(sh: Shard<K, V>, keys: seq<K>) returns (cs: seq<Candidate<K, V>>)
    requires sh.Valid()
    ensures |cs| == |keys| && sh.storage.slots.Length > 0 && AllFound(sh.storage.slots[..], sh.hash, keys, cs)
  {
    hide *;
    ShardTable(sh);
    var firsts: seq<Slot<K, V>> := [];
    while |firsts| < |keys|
      invariant |firsts| <= |keys|
      invariant forall i | 0 <= i < |firsts| ::
                  firsts[i] == sh.storage.slots[Home(sh.hash(keys[i]), sh.storage.slots.Length)]
    {
      firsts := firsts + [sh.storage.slots[Home(sh.hash(keys[|firsts|]), sh.storage.slots.Length)]];
    }
    cs := [];
    NoneFound(sh.storage.slots[..], sh.hash, keys);
    while |cs| < |keys|
      invariant |cs| <= |keys| && AllFound(sh.storage.slots[..], sh.hash, keys, cs)
    {
      var c := FirstCandidate(sh.storage, sh.hash, keys[|cs|], firsts[|cs|]);
      OneMoreFound(sh.storage.slots[..], sh.hash, keys, cs, c);
      cs := cs + [c];
    }
  }

  /** One group through the pipeline: load the home slots, walk every chain, then validate. `s0` is the table the whole
      batch found. */
  method BatchGetGroup<K, V>(sh: Shard<K, V>, keys: seq<K>, nowOff: nat, refresh: Option<nat>,
                             ghost s0: seq<Slot<K, V>>, ghost over0: seq<nat>) returns (answers: seq<Option<V>>)
    requires sh.Valid() && TableInv(s0, over0, sh.hash) && OnlyDrops(s0, sh.storage.slots[..])
    modifies sh`deadCount, sh`weight, sh`live, sh`dirty, sh`reported, sh.storage.slots, sh.storage.overflows, sh.policy
    ensures sh.Valid() && OnlyDrops(s0, sh.storage.slots[..])
    ensures var straight := Straights(s0, old(sh.Map()).Keys, sh.hash, keys);
            (answers, sh.Map()) == Piped(old(sh.Map()), keys, straight, nowOff, refresh)
    ensures Drops(old(sh.Map()), sh.Map(), old(sh.reported), sh.reported)
  {
    hide *;
    ShardTable(sh);
    ghost var s, over, m0, log := sh.storage.slots[..], sh.storage.overflows[..], sh.Map(), sh.reported;
    DropsNone(m0, log);
    var cs := Candidates(sh, keys);
    ghost var straight := Straights(s0, m0.Keys, sh.hash, keys);
    answers := [];
    DropsNothing(s);
    PipedNone(m0, straight, nowOff, refresh);
    assert keys[..0] == [];
    while |answers| < |keys|
      invariant |answers| <= |keys| && sh.Valid() && OnlyDrops(s, sh.storage.slots[..])
      invariant (answers, sh.Map()) == Piped(m0, keys[..|answers|], straight, nowOff, refresh)
      invariant Drops(m0, sh.Map(), log, sh.reported)
    {
      var i := |answers|;
      ghost var m, heard := sh.Map(), sh.reported;
      PipedWears(m0, keys[..i], straight, nowOff, refresh);
      StraightKey(s0, over0, s, over, sh.hash, keys, cs, i);
      var r := Validate(sh, keys[i], cs[i], nowOff, refresh, s);
      PipedStep(m0, keys[..i], keys[i], straight, nowOff, refresh, r, sh.Map());
      DropsMore(m0, m, sh.Map(), log, heard, sh.reported);
      assert keys[..i] + [keys[i]] == keys[..i + 1];
      answers := answers + [r];
    }
    assert keys[..|answers|] == keys;
    DropsFurther(s0, s, sh.storage.slots[..]);
  }

  lemma TableIsSized<K, V>(s: seq<Slot<K, V>>, over: seq<nat>, hash: K -> nat)
    requires TableInv(s, over, hash)
    ensures |s| > 0
  {
  }

  lemma NoneFound<K, V>(s: seq<Slot<K, V>>, hash: K -> nat, keys: seq<K>)
    requires Unique(s) && |s| > 0
    ensures AllFound(s, hash, keys, [])
  {
  }

  lemma OneMoreFound<K, V>(s: seq<Slot<K, V>>, hash: K -> nat, keys: seq<K>, cs: seq<Candidate<K, V>>,
                           c: Candidate<K, V>)
    requires Unique(s) && |s| > 0 && AllFound(s, hash, keys, cs) && |cs| < |keys| && Found(s, hash, keys[|cs|], c)
    ensures AllFound(s, hash, keys, cs + [c])
  {
    hide Found;
  }

  // ---- The whole batch ----

  function GroupOf(n: nat): (g: nat)
    ensures g <= n && g <= GROUP_SIZE && (n > 0 ==> g > 0)
  {
    if n < GROUP_SIZE then n else GROUP_SIZE
  }

  /** A larger batch: group after group, each judged by what the shard holds when it starts. */
  ghost function Batched<K, V>(s: seq<Slot<K, V>>, hash: K -> nat, m: map<K, Entry<V>>, keys: seq<K>, nowOff: nat,
                               refresh: Option<nat>) : (r: (seq<Option<V>>, map<K, Entry<V>>))
    ensures |r.0| == |keys|
    decreases |keys|
  {
    if keys == [] then ([], m)
    else
      var group, rest := keys[..GroupOf(|keys|)], keys[GroupOf(|keys|)..];
      var first := Piped(m, group, Straights(s, m.Keys, hash, group), nowOff, refresh);
      var second := Batched(s, hash, first.1, rest, nowOff, refresh);
      (first.0 + second.0, second.1)
  }

  /** Some group of a batch reads a straight hit twice. */
  ghost predicate GroupRepeats<K, V>(s: seq<Slot<K, V>>, hash: K -> nat, m: map<K, Entry<V>>, keys: seq<K>, nowOff: nat,
                                     refresh: Option<nat>)
    decreases |keys|
  {
    keys != [] &&
    var group, rest := keys[..GroupOf(|keys|)], keys[GroupOf(|keys|)..];
    || StraightRepeat(m, group, Straights(s, m.Keys, hash, group), nowOff)
    || GroupRepeats(s, hash, Serial(m, group, nowOff, refresh).1, rest, nowOff, refresh)
  }

  lemma FirstDiffers<T>(a: seq<T>, b: seq<T>, c: seq<T>, d: seq<T>)
    requires |a| == |c| && |b| == |d|
    ensures a + b == c + d <==> a == c && b == d
  {
    if a + b == c + d {
      assert (a + b)[..|a|] == a && (c + d)[..|a|] == c;
      assert (a + b)[|a|..] == b && (c + d)[|a|..] == d;
    }
  }

  /** A larger batch answers exactly what reading its keys in turn answers, if and only if the refreshed deadline is in
      the future or no group reads a straight hit twice; and then it leaves the same too. */
  lemma {:induction false} BatchedIsSerialExactly<K, V>(s: seq<Slot<K, V>>, hash: K -> nat, m: map<K, Entry<V>>,
                                                         keys: seq<K>, nowOff: nat, refresh: Option<nat>)
    ensures Batched(s, hash, m, keys, nowOff, refresh).0 == Serial(m, keys, nowOff, refresh).0 <==>
              RefreshLives(refresh, nowOff) || !GroupRepeats(s, hash, m, keys, nowOff, refresh)
    ensures RefreshLives(refresh, nowOff) || !GroupRepeats(s, hash, m, keys, nowOff, refresh) ==>
              Batched(s, hash, m, keys, nowOff, refresh) == Serial(m, keys, nowOff, refresh)
    decreases |keys|
  {
    hide *;
    BatchedStep(s, hash, m, keys, nowOff, refresh);
    if keys == [] {
      SerialNone(m, nowOff, refresh);
    } else {
      var group, rest := keys[..GroupOf(|keys|)], keys[GroupOf(|keys|)..];
      assert keys == group + rest;
      var straight := Straights(s, m.Keys, hash, group);
      var first, piped := Serial(m, group, nowOff, refresh), Piped(m, group, straight, nowOff, refresh);
      SerialConcat(m, group, rest, nowOff, refresh);
      SameAnswersExactly(m, group, straight, nowOff, refresh);
      FirstDiffers(piped.0, Batched(s, hash, piped.1, rest, nowOff, refresh).0,
                   first.0, Serial(first.1, rest, nowOff, refresh).0);
      if RefreshLives(refresh, nowOff) || !StraightRepeat(m, group, straight, nowOff) {
        if RefreshLives(refresh, nowOff) {
          PipedIsSerial(m, group, straight, nowOff, refresh);
        } else {
          NoRepeatIsSerial(m, group, straight, nowOff, refresh);
        }
        BatchedIsSerialExactly(s, hash, first.1, rest, nowOff, refresh);
      }
    }
  }

  lemma BatchedStep<K, V>(s: seq<Slot<K, V>>, hash: K -> nat, m: map<K, Entry<V>>, keys: seq<K>, nowOff: nat,
                          refresh: Option<nat>)
    ensures keys == [] ==>
              Batched(s, hash, m, keys, nowOff, refresh) == ([], m) && !GroupRepeats(s, hash, m, keys, nowOff, refresh)
    ensures keys != [] ==>
              var group, rest := keys[..GroupOf(|keys|)], keys[GroupOf(|keys|)..];
              var straight := Straights(s, m.Keys, hash, group);
              var first := Piped(m, group, straight, nowOff, refresh);
              var second := Batched(s, hash, first.1, rest, nowOff, refresh);
              && Batched(s, hash, m, keys, nowOff, refresh) == (first.0 + second.0, second.1)
              && (GroupRepeats(s, hash, m, keys, nowOff, refresh) <==>
                    || StraightRepeat(m, group, straight, nowOff)
                    || GroupRepeats(s, hash, Serial(m, group, nowOff, refresh).1, rest, nowOff, refresh))
  {
    hide Piped, Straights, StraightRepeat, Serial;
  }

  /** What a caller can see to without knowing the table: a batch whose groups repeat no key is always answered as
      reading its keys in turn answers it. */
  lemma {:induction false} NoRepeatedKeyInGroups<K, V>(s: seq<Slot<K, V>>, hash: K -> nat, m: map<K, Entry<V>>,
                                                        keys: seq<K>, nowOff: nat, refresh: Option<nat>)
    requires forall i, j | 0 <= i < j < |keys| && i / GROUP_SIZE == j / GROUP_SIZE :: keys[i] != keys[j]
    ensures !GroupRepeats(s, hash, m, keys, nowOff, refresh)
    decreases |keys|
  {
    BatchedStep(s, hash, m, keys, nowOff, refresh);
    if keys != [] {
      var n := GroupOf(|keys|);
      var group, rest := keys[..n], keys[n..];
      forall i, j | 0 <= i < j < |rest| && i / GROUP_SIZE == j / GROUP_SIZE ensures rest[i] != rest[j] {
        assert rest[i] == keys[i + n] && rest[j] == keys[j + n];
        assert (i + n) / GROUP_SIZE == i / GROUP_SIZE + 1 && (j + n) / GROUP_SIZE == j / GROUP_SIZE + 1;
      }
      NoRepeatedKeyInGroups(s, hash, Serial(m, group, nowOff, refresh).1, rest, nowOff, refresh);
      assert forall i, j | 0 <= i < j < |group| :: group[i] != group[j];
    }
  }

  /** What is left of a larger batch once `answers` of it are there. */
  ghost predicate Underway<K, V>(s: seq<Slot<K, V>>, hash: K -> nat, m0: map<K, Entry<V>>, m: map<K, Entry<V>>,
                                 keys: seq<K>,
                                 answers: seq<Option<V>>, nowOff: nat, refresh: Option<nat>)
    requires |answers| <= |keys|
  {
    var left := Batched(s, hash, m, keys[|answers|..], nowOff, refresh);
    Batched(s, hash, m0, keys, nowOff, refresh) == (answers + left.0, left.1)
  }

  lemma UnderwayStarts<K, V>(s: seq<Slot<K, V>>, hash: K -> nat, m0: map<K, Entry<V>>, keys: seq<K>, nowOff: nat,
                             refresh: Option<nat>)
    ensures Underway(s, hash, m0, m0, keys, [], nowOff, refresh)
  {
    hide Batched;
    assert keys[0..] == keys;
    var all := Batched(s, hash, m0, keys, nowOff, refresh);
    assert [] + all.0 == all.0;
  }

  lemma UnderwayMoves<K, V>(s: seq<Slot<K, V>>, hash: K -> nat, m0: map<K, Entry<V>>, m: map<K, Entry<V>>, keys: seq<K>,
                            answers: seq<Option<V>>, group: seq<Option<V>>, m': map<K, Entry<V>>, nowOff: nat,
                            refresh: Option<nat>)
    requires |answers| < |keys| && Underway(s, hash, m0, m, keys, answers, nowOff, refresh)
    requires var part := keys[|answers|..][..GroupOf(|keys| - |answers|)];
             (group, m') == Piped(m, part, Straights(s, m.Keys, hash, part), nowOff, refresh)
    ensures |answers + group| <= |keys| && Underway(s, hash, m0, m', keys, answers + group, nowOff, refresh)
  {
    hide Batched, Piped, Straights;
    var left, n := keys[|answers|..], GroupOf(|keys| - |answers|);
    BatchedStep(s, hash, m, left, nowOff, refresh);
    assert keys[|answers + group|..] == left[n..];
    var later := Batched(s, hash, m', left[n..], nowOff, refresh);
    assert answers + (group + later.0) == (answers + group) + later.0;
  }

  lemma UnderwayEnds<K, V>(s: seq<Slot<K, V>>, hash: K -> nat, m0: map<K, Entry<V>>, m: map<K, Entry<V>>, keys: seq<K>,
                           answers: seq<Option<V>>, nowOff: nat, refresh: Option<nat>)
    requires |answers| == |keys| && Underway(s, hash, m0, m, keys, answers, nowOff, refresh)
    ensures (answers, m) == Batched(s, hash, m0, keys, nowOff, refresh)
  {
    hide Batched;
    BatchedStep(s, hash, m, [], nowOff, refresh);
    assert keys[|answers|..] == [] && answers + [] == answers;
  }

  /** The keys found in memory with their values, and those not found, both in the order asked. Small batches read key
      by key, larger ones group by group through the pipeline; the answers are those of reading the keys in turn if and
      only if the batch is small, the refreshed deadline is in the future, or no group reads a straight hit twice. */
  method BatchGetMemory<K, V>(sh: Shard<K, V>, keys: seq<K>, nowOff: nat, refresh: Option<nat>, wantMissing: bool)
    returns (dst: seq<(K, V)>, missing: seq<K>, ghost answers: seq<Option<V>>)
    requires sh.Valid()
    modifies sh`deadCount, sh`weight, sh`live, sh`dirty, sh`reported, sh.storage.slots, sh.storage.overflows, sh.policy
    ensures sh.Valid() && |answers| == |keys|
    ensures dst == Hits(keys, answers) && missing == if wantMissing then Missing(keys, answers) else []
    ensures (answers, sh.Map())
         == if |keys| <= SMALL_BATCH then Serial(old(sh.Map()), keys, nowOff, refresh)
            else Batched(old(sh.storage.slots[..]), sh.hash, old(sh.Map()), keys, nowOff, refresh)
    ensures answers == Serial(old(sh.Map()), keys, nowOff, refresh).0 <==>
              || |keys| <= SMALL_BATCH || RefreshLives(refresh, nowOff)
              || !GroupRepeats(old(sh.storage.slots[..]), sh.hash, old(sh.Map()), keys, nowOff, refresh)
    ensures Drops(old(sh.Map()), sh.Map(), old(sh.reported), sh.reported)
  {
    hide *;
    ghost var s, m0 := sh.storage.slots[..], sh.Map();
    BatchedIsSerialExactly(s, sh.hash, m0, keys, nowOff, refresh);
    if |keys| <= SMALL_BATCH {
      dst, missing, answers := GetEach(sh, keys, nowOff, refresh, wantMissing);
    } else {
      dst, missing, answers := GetGroups(sh, keys, nowOff, refresh, wantMissing);
    }
  }

  /** Key by key. */
  method GetEach<K, V>(sh: Shard<K, V>, keys: seq<K>, nowOff: nat, refresh: Option<nat>, wantMissing: bool)
    returns (dst: seq<(K, V)>, missing: seq<K>, ghost answers: seq<Option<V>>)
    requires sh.Valid()
    modifies sh`deadCount, sh`weight, sh`live, sh`dirty, sh`reported, sh.storage.slots, sh.storage.overflows, sh.policy
    ensures sh.Valid() && |answers| == |keys|
    ensures dst == Hits(keys, answers) && missing == if wantMissing then Missing(keys, answers) else []
    ensures (answers, sh.Map()) == Serial(old(sh.Map()), keys, nowOff, refresh)
    ensures Drops(old(sh.Map()), sh.Map(), old(sh.reported), sh.reported)
  {
    hide *;
    ghost var m0, log := sh.Map(), sh.reported;
    DropsNone(m0, log);
    dst, missing, answers := [], [], [];
    SortedNone<K, V>();
    SerialNone(m0, nowOff, refresh);
    var i := 0;
    assert keys[..0] == [];
    while i < |keys|
      invariant 0 <= i <= |keys| && sh.Valid() && |answers| == i
      invariant dst == Hits(keys[..i], answers) && missing == if wantMissing then Missing(keys[..i], answers) else []
      invariant (answers, sh.Map()) == Serial(m0, keys[..i], nowOff, refresh)
      invariant Drops(m0, sh.Map(), log, sh.reported)
    {
      var key := keys[i];
      ghost var m, heard := sh.Map(), sh.reported;
      SerialStep(m0, keys[..i], key, nowOff, refresh);
      var r := Read(sh, key, nowOff, refresh);
      DropsMore(m0, m, sh.Map(), log, heard, sh.reported);
      SortedStep(keys[..i], answers, key, r);
      assert keys[..i] + [key] == keys[..i + 1];
      if r.Some? {
        dst := dst + [(key, r.value)];
      } else if wantMissing {
        missing := missing + [key];
      }
      answers := answers + [r];
      i := i + 1;
    }
    assert keys[..i] == keys;
  }

  /** Group by group. */
  method GetGroups<K, V>(sh: Shard<K, V>, keys: seq<K>, nowOff: nat, refresh: Option<nat>, wantMissing: bool)
    returns (dst: seq<(K, V)>, missing: seq<K>, ghost answers: seq<Option<V>>)
    requires sh.Valid()
    modifies sh`deadCount, sh`weight, sh`live, sh`dirty, sh`reported, sh.storage.slots, sh.storage.overflows, sh.policy
    ensures sh.Valid() && |answers| == |keys|
    ensures dst == Hits(keys, answers) && missing == if wantMissing then Missing(keys, answers) else []
    ensures (answers, sh.Map()) == Batched(old(sh.storage.slots[..]), sh.hash, old(sh.Map()), keys, nowOff, refresh)
    ensures Drops(old(sh.Map()), sh.Map(), old(sh.reported), sh.reported)
  {
    hide *;
    ShardTable(sh);
    ghost var s, over, m0, log := sh.storage.slots[..], sh.storage.overflows[..], sh.Map(), sh.reported;
    DropsNone(m0, log);
    dst, missing, answers := [], [], [];
    SortedNone<K, V>();
    DropsNothing(s);
    UnderwayStarts(s, sh.hash, m0, keys, nowOff, refresh);
    var start := 0;
    assert keys[..0] == [];
    while start < |keys|
      invariant 0 <= start <= |keys| && sh.Valid() && |answers| == start && OnlyDrops(s, sh.storage.slots[..])
      invariant dst == Hits(keys[..start], answers)
      invariant missing == if wantMissing then Missing(keys[..start], answers) else []
      invariant Underway(s, sh.hash, m0, sh.Map(), keys, answers, nowOff, refresh)
      invariant Drops(m0, sh.Map(), log, sh.reported)
    {
      var n := GroupOf(|keys| - start);
      var part := keys[start..start + n];
      assert part == keys[start..][..n];
      ghost var before, m, heard := answers, sh.Map(), sh.reported;
      var group := BatchGetGroup(sh, part, nowOff, refresh, s, over);
      UnderwayMoves(s, sh.hash, m0, m, keys, before, group, sh.Map(), nowOff, refresh);
      DropsMore(m0, m, sh.Map(), log, heard, sh.reported);
      dst, missing, answers := Append(keys, start, part, group, dst, missing, answers, wantMissing);
      start := start + n;
    }
    assert keys[..start] == keys;
    UnderwayEnds(s, sh.hash, m0, sh.Map(), keys, answers, nowOff, refresh);
  }

  /** Sorts one group's answers into hits and misses. */
  method Append<K, V>(keys: seq<K>, start: nat, part: seq<K>, group: seq<Option<V>>, dst0: seq<(K, V)>,
                      missing0: seq<K>,
                      ghost before: seq<Option<V>>, wantMissing: bool)
    returns (dst: seq<(K, V)>, missing: seq<K>, ghost answers: seq<Option<V>>)
    requires start + |part| <= |keys| && part == keys[start..start + |part|] && |group| == |part| && |before| == start
    requires dst0 == Hits(keys[..start], before)
    requires missing0 == if wantMissing then Missing(keys[..start], before) else []
    ensures answers == before + group && dst == Hits(keys[..start + |part|], answers)
    ensures missing == if wantMissing then Missing(keys[..start + |part|], answers) else []
  {
    hide *;
    dst, missing, answers := dst0, missing0, before;
    var i := 0;
    assert before + group[..0] == before;
    while i < |part|
      invariant 0 <= i <= |part| && answers == before + group[..i]
      invariant dst == Hits(keys[..start + i], answers)
      invariant missing == if wantMissing then Missing(keys[..start + i], answers) else []
    {
      SortedStep(keys[..start + i], answers, part[i], group[i]);
      assert keys[..start + i] + [part[i]] == keys[..start + i + 1];
      if group[i].Some? {
        dst := dst + [(part[i], group[i].value)];
      } else if wantMissing {
        missing := missing + [part[i]];
      }
      assert before + group[..i] + [group[i]] == before + group[..i + 1];
      answers := answers + [group[i]];
      i := i + 1;
    }
    assert group[..i] == group;
  }

  /** A table holding one item, stored by plain publishing. */
  lemma OneItem<K, V>(hash: K -> nat, key: K, value: V, off: nat) returns (s: seq<Slot<K, V>>, over: seq<nat>)
    ensures TableInv(s, over, hash) && Contents(s) == map[key := Entry(value, off)]
  {
    var blank, zeros := seq(MIN_SLOTS, _ => Empty), seq(MIN_SLOTS / GROUP, _ => 0);
    FreshTable<K, V>(blank, zeros, hash);
    var home := Home(hash(key), MIN_SLOTS);
    PublishKeepsTable(blank, zeros, hash, home, key, value, off);
    s, over := blank[home := Live(key, value, TagOf(hash(key)), off)], Noted(zeros, home, home);
  }

  /** The corner the pipeline gets wrong. An item of the longest lifetime, stored at clock 0x2_0000, is read five times
      in one batch at 0x2_0001: its refreshed deadline lands on the reserved offset and is past at once. The batch
      answers every read, reading in turn answers the first alone. */
  lemma RepeatedKeyDiffers<K, V>(hash: K -> nat, key: K, value: V) returns (s: seq<Slot<K, V>>, over: seq<nat>)
    ensures TableInv(s, over, hash)
    ensures Contents(s) == map[key := Entry(value, ExpiryScale.Stamp(0x2_0000, ExpiryScale.EXPIRE_MAX - 1))]
    ensures var nowOff, keys := 0x2_0001, [key, key, key, key, key];
            var refresh := Some(ExpiryScale.Stamp(nowOff, ExpiryScale.EXPIRE_MAX - 1));
            && |keys| > SMALL_BATCH
            && Batched(s, hash, Contents(s), keys, nowOff, refresh).0 != Serial(Contents(s), keys, nowOff, refresh).0
  {
    hide TableInv, Batched, Serial, Piped, GroupRepeats, StraightAmong, Contents;
    var nowOff, keys := 0x2_0001, [key, key, key, key, key];
    var refresh := Some(ExpiryScale.Stamp(nowOff, ExpiryScale.EXPIRE_MAX - 1));
    s, over := OneItem(hash, key, value, ExpiryScale.Stamp(0x2_0000, ExpiryScale.EXPIRE_MAX - 1));
    AreUnique(s, over, hash);
    var m := Contents(s);
    OnlyKeyIsStraight(s, over, hash, key);
    assert keys[..GroupOf(|keys|)] == keys;
    assert keys[0] == keys[1] && keys[0] in Straights(s, m.Keys, hash, keys) && Answer(m, keys[0], nowOff).Some?;
    BatchedStep(s, hash, m, keys, nowOff, refresh);
    BatchedIsSerialExactly(s, hash, m, keys, nowOff, refresh);
  }

  lemma OnlyKeyIsStraight<K, V>(s: seq<Slot<K, V>>, over: seq<nat>, hash: K -> nat, key: K)
    requires TableInv(s, over, hash) && Unique(s) && Contents(s).Keys == {key}
    ensures StraightAmong(s, Contents(s).Keys, hash, key)
  {
    hide TableInv, Contents, StraightAmong;
    forall i | 0 <= i < |s| && Tagged(s[i], TagOf(hash(key))) ensures s[i].key == key {
      ContentsAt(s, i);
    }
    NoClashIsStraight(s, over, hash, key);
  }
}
