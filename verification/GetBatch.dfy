/** One coalesced read: the distinct keys, and for each the chain of slots waiting for it, linked inside one array. */
module GetBatches {

  const BATCH_INDEX_FROM := 8

  datatype KeyVal<K, V> = KeyVal(key: K, value: V)

  /** What a waiting caller is told; error 0 is none. */
  datatype Outcome<V> = Found(value: V) | Missed(err: nat)

  /** One settled slot, by its place in the batch. */
  datatype Settled<V> = Settled(at: nat, outcome: Outcome<V>)

  // ---- Chains ----

  ghost predicate Linked(next: seq<int>) {
    forall i | 0 <= i < |next| :: -1 <= next[i] < i
  }

  /** The slots reached from `h` through the links. */
  ghost function Chain(next: seq<int>, h: int): seq<nat>
    requires Linked(next) && -1 <= h < |next|
    decreases h + 1
  {
    if h < 0 then [] else [h] + Chain(next, next[h])
  }

  lemma {:induction false} ChainExtends(next: seq<int>, more: int, h: int)
    requires Linked(next) && -1 <= more < |next| && -1 <= h < |next|
    ensures Linked(next + [more]) && Chain(next + [more], h) == Chain(next, h)
    decreases h + 1
  {
    if h >= 0 {
      ChainExtends(next, more, next[h]);
    }
  }

  /** The slots waiting for `key`, latest first. */
  ghost function Waiters<K>(wanted: seq<K>, key: K): seq<nat> {
    if wanted == [] then []
    else
      var last := |wanted| - 1;
      var rest := Waiters(wanted[..last], key);
      if wanted[last] == key then [last] + rest else rest
  }

  lemma {:induction false} WaitersSound<K>(wanted: seq<K>, key: K)
    ensures forall i | 0 <= i < |Waiters(wanted, key)| ::
              Waiters(wanted, key)[i] < |wanted| && wanted[Waiters(wanted, key)[i]] == key
    ensures forall i, j | 0 <= i < j < |Waiters(wanted, key)| :: Waiters(wanted, key)[i] > Waiters(wanted, key)[j]
  {
    if wanted != [] {
      WaitersSound(wanted[..|wanted| - 1], key);
    }
  }

  lemma {:induction false} WaitersComplete<K>(wanted: seq<K>, key: K, p: nat)
    requires p < |wanted| && wanted[p] == key
    ensures p in Waiters(wanted, key)
  {
    var last := |wanted| - 1;
    if p < last {
      WaitersComplete(wanted[..last], key, p);
    }
  }

  lemma {:induction false} WaitersOneMore<K>(wanted: seq<K>, more: K, key: K)
    ensures Waiters(wanted + [more], key) == (if more == key then [|wanted|] else []) + Waiters(wanted, key)
  {
    assert (wanted + [more])[..|wanted|] == wanted;
    assert [] + Waiters(wanted, key) == Waiters(wanted, key);
  }

  /** The chains partition the waiting slots by key; a served key has lost its chain. */
  ghost predicate Chains<K>(keys: seq<K>, head: seq<int>, next: seq<int>, wanted: seq<K>) {
    && |next| == |wanted| && |head| == |keys| && Linked(next)
    && forall at | 0 <= at < |head| ::
         -1 <= head[at] < |next| && (head[at] >= 0 ==> Chain(next, head[at]) == Waiters(wanted, keys[at]))
  }

  lemma ChainsShape<K>(keys: seq<K>, head: seq<int>, next: seq<int>, wanted: seq<K>)
    requires Chains(keys, head, next, wanted)
    ensures |next| == |wanted| && |head| == |keys|
  {
  }

  lemma KeyServed<K>(keys: seq<K>, head: seq<int>, next: seq<int>, wanted: seq<K>, at: nat)
    requires Chains(keys, head, next, wanted) && at < |head|
    ensures Linked(next) && |head| == |keys| && head[at] < |next|
    ensures head[at] >= 0 ==> Chain(next, head[at]) == Waiters(wanted, keys[at])
    ensures Chains(keys, head[at := -1], next, wanted)
  {
  }

  lemma ChainHead(next: seq<int>, h: int)
    requires Linked(next) && 0 <= h < |next|
    ensures Chain(next, h) != [] && Chain(next, h)[0] == h && Chain(next, h)[1..] == Chain(next, next[h])
  {
  }

  lemma ChainEnds(next: seq<int>, h: int)
    requires Linked(next) && h == -1
    ensures Chain(next, h) == []
  {
  }

  lemma KnownKeyLinks<K>(keys: seq<K>, head: seq<int>, next: seq<int>, wanted: seq<K>, at: nat)
    requires Chains(keys, head, next, wanted) && at < |keys| && head[at] >= 0
    requires forall i, j | 0 <= i < j < |keys| :: keys[i] != keys[j]
    ensures Chains(keys, head[at := |next|], next + [head[at]], wanted + [keys[at]])
  {
    var head', next', wanted' := head[at := |next|], next + [head[at]], wanted + [keys[at]];
    ChainExtends(next, head[at], head[at]);
    forall a | 0 <= a < |head'| && head'[a] >= 0 ensures Chain(next', head'[a]) == Waiters(wanted', keys[a]) {
      ChainExtends(next, head[at], head[a]);
      WaitersOneMore(wanted, keys[at], keys[a]);
    }
  }

  lemma NewKeyLinks<K>(keys: seq<K>, head: seq<int>, next: seq<int>, wanted: seq<K>, key: K)
    requires Chains(keys, head, next, wanted) && key !in keys && key !in wanted
    ensures Chains(keys + [key], head + [|next|], next + [-1], wanted + [key])
  {
    var keys', head', next', wanted' := keys + [key], head + [|next|], next + [-1], wanted + [key];
    ChainExtends(next, -1, -1);
    WaitersAbsent(wanted, key);
    forall a | 0 <= a < |head'| && head'[a] >= 0 ensures Chain(next', head'[a]) == Waiters(wanted', keys'[a]) {
      WaitersOneMore(wanted, key, keys'[a]);
      if a < |keys| {
        ChainExtends(next, -1, head[a]);
      }
    }
  }

  lemma {:induction false} WaitersAbsent<K>(wanted: seq<K>, key: K)
    requires key !in wanted
    ensures Waiters(wanted, key) == []
  {
    if wanted != [] {
      WaitersAbsent(wanted[..|wanted| - 1], key);
    }
  }

  // ---- The ledger of settled slots ----

  ghost predicate Served<K>(keys: seq<K>, head: seq<int>, key: K)
    requires |head| == |keys|
  {
    exists at :: 0 <= at < |keys| && keys[at] == key && head[at] < 0
  }

  /** `log` settles exactly the slots of the served keys, each once, each as its key deserves. */
  ghost predicate Ledger<K, V>(keys: seq<K>, head: seq<int>, wanted: seq<K>, log: seq<Settled<V>>,
                               expected: K -> Outcome<V>)
    requires |head| == |keys|
  {
    && (forall i | 0 <= i < |log| ::
          && log[i].at < |wanted| && Served(keys, head, wanted[log[i].at])
          && log[i].outcome == expected(wanted[log[i].at]))
    && (forall i, j | 0 <= i < j < |log| :: log[i].at != log[j].at)
    && (forall p | 0 <= p < |wanted| && Served(keys, head, wanted[p]) :: exists i :: 0 <= i < |log| && log[i].at == p)
  }

  /** Every slot of the batch is settled exactly once. */
  ghost predicate AllSettled<K, V>(wanted: seq<K>, log: seq<Settled<V>>, expected: K -> Outcome<V>) {
    && |log| == |wanted|
    && (forall i | 0 <= i < |log| :: log[i].at < |wanted| && log[i].outcome == expected(wanted[log[i].at]))
    && (forall i, j | 0 <= i < j < |log| :: log[i].at != log[j].at)
  }

  ghost predicate SettlesChain<V>(piece: seq<Settled<V>>, chain: seq<nat>, outcome: Outcome<V>) {
    |piece| == |chain| && forall i | 0 <= i < |piece| :: piece[i] == Settled(chain[i], outcome)
  }

  lemma OneKeyServed<K, V>(keys: seq<K>, head: seq<int>, wanted: seq<K>, log: seq<Settled<V>>,
                           expected: K -> Outcome<V>,
                           at: nat, piece: seq<Settled<V>>)
    requires |head| == |keys| && at < |keys| && head[at] >= 0
    requires forall i, j | 0 <= i < j < |keys| :: keys[i] != keys[j]
    requires Ledger(keys, head, wanted, log, expected)
    requires SettlesChain(piece, Waiters(wanted, keys[at]), expected(keys[at]))
    ensures Ledger(keys, head[at := -1], wanted, log + piece, expected)
  {
    var key, head', log' := keys[at], head[at := -1], log + piece;
    var chain := Waiters(wanted, key);
    WaitersSound(wanted, key);
    forall k ensures Served(keys, head', k) <==> Served(keys, head, k) || k == key {
      if Served(keys, head, k) {
        var a :| 0 <= a < |keys| && keys[a] == k && head[a] < 0;
        assert head'[a] < 0;
      }
      if k == key {
        assert head'[at] < 0;
      }
    }
    assert !Served(keys, head, key);
    forall p | 0 <= p < |wanted| && Served(keys, head', wanted[p])
      ensures exists i :: 0 <= i < |log'| && log'[i].at == p
    {
      if wanted[p] == key {
        WaitersComplete(wanted, key, p);
        var i :| 0 <= i < |chain| && chain[i] == p;
        assert log'[|log| + i].at == p;
      } else {
        var i :| 0 <= i < |log| && log[i].at == p;
        assert log'[i].at == p;
      }
    }
    forall i, j | 0 <= i < j < |log'| ensures log'[i].at != log'[j].at {
      if i < |log| <= j {
        assert wanted[chain[j - |log|]] == key;
      }
    }
  }

  /** When every key is served, every slot is settled exactly once. */
  lemma AllServed<K, V>(keys: seq<K>, head: seq<int>, wanted: seq<K>, log: seq<Settled<V>>, expected: K -> Outcome<V>)
    requires |head| == |keys| && Ledger(keys, head, wanted, log, expected)
    requires forall at | 0 <= at < |head| :: head[at] < 0
    requires forall p | 0 <= p < |wanted| :: wanted[p] in keys
    ensures AllSettled(wanted, log, expected)
  {
    var settled := set i | 0 <= i < |log| :: log[i].at;
    var all := UpTo(|wanted|);
    forall p | 0 <= p < |wanted| ensures p in settled {
      var at :| 0 <= at < |keys| && keys[at] == wanted[p];
      assert Served(keys, head, wanted[p]);
    }
    assert settled == all;
    DistinctCount(log, |log|);
    assert settled == (set i | 0 <= i < |log| :: log[i].at);
  }

  lemma {:induction false} DistinctCount<V>(log: seq<Settled<V>>, n: nat)
    requires n <= |log| && forall i, j | 0 <= i < j < |log| :: log[i].at != log[j].at
    ensures |set i | 0 <= i < n :: log[i].at| == n
  {
    if n > 0 {
      DistinctCount(log, n - 1);
      var before := set i | 0 <= i < n - 1 :: log[i].at;
      assert (set i | 0 <= i < n :: log[i].at) == before + {log[n - 1].at};
      assert log[n - 1].at !in before;
    }
  }

  ghost function UpTo(n: nat): (s: set<nat>)
    ensures |s| == n && forall p: nat :: p in s <==> p < n
  {
    if n == 0 then {} else UpTo(n - 1) + {n - 1}
  }

  // ---- The batch ----

  /** What L2 came back with. An adapter or a memory write that panics after `items` ends the batch with `err`. */
  datatype Reply<K, V> =
    | One(found: bool, value: V, err: nat)
    | Failed(err: nat)
    | Items(items: seq<KeyVal<K, V>>, err: nat)

  /** The first answer for `key`; repeats of it are skipped. */
  ghost function First<K, V>(items: seq<KeyVal<K, V>>, key: K, err: nat): Outcome<V> {
    if items == [] then Missed(err)
    else if items[0].key == key then Found(items[0].value)
    else First(items[1..], key, err)
  }

  ghost function Expected<K, V>(reply: Reply<K, V>, key: K): Outcome<V> {
    match reply
    case One(found, value, err) => if found then Found(value) else Missed(err)
    case Failed(err) => Missed(err)
    case Items(items, err) => First(items, key, err)
  }

  /** What a waiter for `key` is told: the value L2 found, the first one it gave for this very key, or the error that
      ended the batch, which is none for a plain miss. */
  ghost predicate Tells<K, V>(reply: Reply<K, V>, key: K, told: Outcome<V>) {
    match reply
    case One(found, value, err) => (found ==> told == Found(value)) && (!found ==> told == Missed(err))
    case Failed(err) => told == Missed(err)
    case Items(items, err) =>
      && (told.Missed? ==> told.err == err && forall i | 0 <= i < |items| :: items[i].key != key)
      && (told.Found? ==>
            exists i :: 0 <= i < |items| && items[i] == KeyVal(key, told.value)
                        && forall j | 0 <= j < i :: items[j].key != key)
  }

  lemma ExpectedTells<K, V>(reply: Reply<K, V>, key: K)
    ensures Tells(reply, key, Expected(reply, key))
  {
    if reply.Items? {
      var at := FirstTells(reply.items, key, reply.err);
    }
  }

  lemma {:induction false} FirstTells<K, V>(items: seq<KeyVal<K, V>>, key: K, err: nat) returns (at: nat)
    ensures at <= |items| && forall j | 0 <= j < at :: items[j].key != key
    ensures First(items, key, err) == if at == |items| then Missed(err) else Found(items[at].value)
    ensures at < |items| ==> items[at].key == key
  {
    at := 0;
    if items != [] && items[0].key != key {
      at := FirstTells(items[1..], key, err);
      at := at + 1;
    }
  }

  /** The index holds every key with its position. */
  ghost predicate Indexes<K>(index: map<K, nat>, keys: seq<K>) {
    && (forall k | k in index :: index[k] < |keys| && keys[index[k]] == k)
    && (forall i | 0 <= i < |keys| :: keys[i] in index)
  }

  class GetBatch<K(==)> {
    var keys: seq<K>
    var head: seq<int>
    var next: seq<int>
    var slots: seq<nat>
    /** Built once the batch outgrows the scan, then kept from batch to batch. */
    var index: map<K, nat>
    var indexed: bool
    /** The key each slot waits for. */
    ghost var wanted: seq<K>

    constructor ()
      ensures Valid() && wanted == [] && keys == []
    {
      keys, head, next, slots, index, indexed, wanted := [], [], [], [], map[], false, [];
    }

    ghost predicate Shape()
      reads this
    {
      && |slots| == |wanted|
      && (forall i, j | 0 <= i < j < |keys| :: keys[i] != keys[j])
      && (forall p | 0 <= p < |wanted| :: wanted[p] in keys)
      && (indexed ==> Indexes(index, keys))
    }

    ghost predicate Valid()
      reads this
    {
      Shape() && Chains(keys, head, next, wanted)
    }

    ghost predicate Unserved()
      reads this
    {
      forall at | 0 <= at < |head| :: head[at] >= 0
    }

    /** The position of the key among the distinct keys: the index and the scan agree. */
    method Lookup(key: K) returns (at: nat, known: bool)
      requires Shape()
      ensures known <==> key in keys
      ensures known ==> at < |keys| && keys[at] == key
    {
      if indexed {
        return if key in index then index[key] else 0, key in index;
      }
      for i := 0 to |keys|
        invariant key !in keys[..i]
      {
        if keys[i] == key {
          return i, true;
        }
      }
      return 0, false;
    }

    /** Records the key just appended, building the index on the batch that first outgrows the scan. */
    method IndexKey(key: K)
      requires keys != [] && keys[|keys| - 1] == key && key !in keys[..|keys| - 1]
      requires indexed ==> Indexes(index, keys[..|keys| - 1])
      modifies this`index, this`indexed
      ensures indexed ==> Indexes(index, keys)
    {
      var last := |keys| - 1;
      assert keys == keys[..last] + [key];
      if !indexed {
        if |keys| <= BATCH_INDEX_FROM {
          return;
        }
        index, indexed := map[], true;
        for i := 0 to last
          invariant indexed && Indexes(index, keys[..i])
        {
          index := index[keys[i] := i];
          assert keys[..i + 1] == keys[..i] + [keys[i]];
        }
      }
      index := index[key := last];
    }

    /** Files a request: a new key, or one more link in the chain of a known one. */
    method Add(key: K, slot: nat)
      requires Valid() && Unserved()
      modifies this
      ensures Valid() && Unserved()
      ensures slots == old(slots) + [slot] && wanted == old(wanted) + [key]
      ensures keys == if key in old(keys) then old(keys) else old(keys) + [key]
    {
      hide Chains;
      ChainsShape(keys, head, next, wanted);
      var at, known := Lookup(key);
      var p := |slots|;
      if known {
        KnownKeyLinks(keys, head, next, wanted, at);
        next, head := next + [head[at]], head[at := p];
      } else {
        NewKeyLinks(keys, head, next, wanted, key);
        next, head, keys := next + [-1], head + [p], keys + [key];
        IndexKey(key);
      }
      slots, wanted := slots + [slot], wanted + [key];
    }

    /** Hands one answer to every slot waiting for the key at `at`, and marks the key served. */
    method SettleKey<V>(at: nat, outcome: Outcome<V>) returns (piece: seq<Settled<V>>)
      requires Valid() && at < |keys| && head[at] >= 0
      modifies this`head
      ensures Valid() && head == old(head)[at := -1]
      ensures SettlesChain(piece, Waiters(wanted, keys[at]), outcome)
    {
      hide Chains, Chain, Waiters;
      ChainsShape(keys, head, next, wanted);
      KeyServed(keys, head, next, wanted, at);
      piece := [];
      var slot := head[at];
      ghost var chain := Chain(next, slot);
      while slot >= 0
        invariant -1 <= slot < |next| && |piece| <= |chain| && chain[|piece|..] == Chain(next, slot)
        invariant forall i | 0 <= i < |piece| :: piece[i] == Settled(chain[i], outcome)
        invariant head == old(head)
        decreases slot
      {
        ChainHead(next, slot);
        piece := piece + [Settled(slot, outcome)];
        slot := next[slot];
      }
      ChainEnds(next, slot);
      head := head[at := -1];
    }

    /** Settles the keys not served yet. A second call finds nothing left to do. */
    method SettleRest<V>(outcome: Outcome<V>, ghost log: seq<Settled<V>>, ghost expected: K -> Outcome<V>)
      returns (rest: seq<Settled<V>>)
      requires Valid() && Ledger(keys, head, wanted, log, expected)
      requires forall at | 0 <= at < |head| && head[at] >= 0 :: expected(keys[at]) == outcome
      modifies this`head
      ensures Valid() && AllSettled(wanted, log + rest, expected)
      ensures forall at | 0 <= at < |head| :: head[at] < 0
      ensures (forall at | 0 <= at < |head| :: old(head)[at] < 0) ==> rest == []
    {
      hide Chains, Ledger, AllSettled;
      ChainsShape(keys, head, next, wanted);
      rest := [];
      assert log + rest == log;
      for at := 0 to |head|
        invariant Valid() && |head| == |old(head)| == |keys|
        invariant Ledger(keys, head, wanted, log + rest, expected)
        invariant forall a | 0 <= a < at :: head[a] < 0
        invariant forall a | at <= a < |head| :: head[a] == old(head)[a]
        invariant (forall a | 0 <= a < |head| :: old(head)[a] < 0) ==> rest == []
      {
        if head[at] >= 0 {
          ghost var before := head;
          var piece := SettleKey(at, outcome);
          OneKeyServed(keys, before, wanted, log + rest, expected, at, piece);
          assert log + rest + piece == log + (rest + piece);
          rest := rest + piece;
        }
      }
      AllServed(keys, head, wanted, log + rest, expected);
    }

    /** Serves the whole batch from L2's reply, whatever keys it repeats, invents, omits or fails on: every slot is
        settled exactly once, with the first answer for its key or with the miss that ended the batch. */
    method Resolve<V>(reply: Reply<K, V>) returns (log: seq<Settled<V>>)
      requires Valid() && Unserved() && (reply.One? <==> |keys| == 1)
      modifies this`head
      ensures Valid() && AllSettled(wanted, log, (k: K) => Expected(reply, k))
      ensures forall i | 0 <= i < |log| ::
                log[i].at < |wanted| && Tells(reply, wanted[log[i].at], log[i].outcome)
    {
      log := ResolveAs(reply);
      forall i | 0 <= i < |log|
        ensures log[i].at < |wanted| && Tells(reply, wanted[log[i].at], log[i].outcome)
      {
        ExpectedTells(reply, wanted[log[i].at]);
      }
    }

    method ResolveAs<V>(reply: Reply<K, V>) returns (log: seq<Settled<V>>)
      requires Valid() && Unserved() && (reply.One? <==> |keys| == 1)
      modifies this`head
      ensures Valid() && AllSettled(wanted, log, (k: K) => Expected(reply, k))
    {
      hide Chains, Ledger, AllSettled;
      ghost var expected := (k: K) => Expected(reply, k);
      ChainsShape(keys, head, next, wanted);
      log := [];
      NothingServed(keys, head, wanted, expected);
      if |keys| == 0 {
        AllServed(keys, head, wanted, log, expected);
        return;
      }
      match reply {
        case One(found, value, err) =>
          var rest := SettleRest(if found then Found(value) else Missed(err), log, expected);
          log := log + rest;
        case Failed(err) =>
          var rest := SettleRest(Missed(err), log, expected);
          log := log + rest;
        case Items(items, err) =>
          var i := 0;
          while i < |items|
            invariant 0 <= i <= |items| && Valid() && |head| == |keys|
            invariant Ledger(keys, head, wanted, log, expected)
            invariant forall at | 0 <= at < |head| && head[at] >= 0 ::
                      expected(keys[at]) == First(items[i..], keys[at], err)
          {
            var at, known := Lookup(items[i].key);
            if known && head[at] >= 0 {
              ghost var before := head;
              var piece := SettleKey(at, Found(items[i].value));
              OneKeyServed(keys, before, wanted, log, expected, at, piece);
              log := log + piece;
            }
            i := i + 1;
          }
          var rest := SettleRest(Missed(err), log, expected);
          log := log + rest;
      }
    }

    /** Ready for the next batch; the index map is kept, emptied. */
    method Reset()
      requires Valid()
      modifies this
      ensures Valid() && Unserved() && wanted == [] && keys == [] && indexed == old(indexed)
    {
      keys, slots, head, next, index, wanted := [], [], [], [], map[], [];
    }
  }

  lemma NothingServed<K, V>(keys: seq<K>, head: seq<int>, wanted: seq<K>, expected: K -> Outcome<V>)
    requires |head| == |keys| && forall at | 0 <= at < |head| :: head[at] >= 0
    ensures Ledger(keys, head, wanted, [], expected)
  {
  }
}
