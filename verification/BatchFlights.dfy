/** The singleflight state of one batch: the keys it owns, aligned with their flights, and the flights it joined. */
module BatchFlights {
  import opened Options

  /** A pointer into the slab of a batch: the registry and the joiners hold these. */
  datatype FlightRef = FlightRef(batch: nat, index: nat)

  /** The registry as its claims and releases show it: the flight running for each key. */
  type Registry<K> = map<K, FlightRef>

  class Claims<K(==)> {
    const id: nat
    var owned: seq<K>
    /** The key of each flight in the slab's used part. */
    var calls: seq<K>
    /** The slab's capacity, once the first claim has made it. */
    var capacity: Option<nat>
    var joined: seq<(K, FlightRef)>
    /** owned no longer aliases the caller's batch. */
    var copied: bool

    constructor (id: nat)
      ensures this.id == id && owned == [] && calls == [] && capacity == None && joined == [] && !copied
    {
      this.id, owned, calls, capacity, joined, copied := id, [], [], None, [], false;
    }

    /** The state after claims among the first `i` of `keys`: owned keys and flights aligned, the slab large enough for
        everything still to come, and the registry pointing into it. */
    ghost predicate Valid(keys: seq<K>, i: nat, running: Registry<K>)
      reads this
    {
      && i <= |keys| && owned == calls
      && (capacity.None? ==> calls == [] && joined == [])
      && (capacity.Some? ==> |calls| + |keys| - i <= capacity.value <= |keys|)
      && (!copied ==> |owned| <= i && owned == keys[..|owned|])
      && (forall j | 0 <= j < |owned| :: owned[j] in running && running[owned[j]] == FlightRef(id, j))
      && (forall k | k in running && running[k].batch == id ::
            running[k].index < |owned| && owned[running[k].index] == k)
    }

    lemma Starts(keys: seq<K>, running: Registry<K>)
      requires owned == [] && calls == [] && capacity == None && joined == []
               && forall k | k in running :: running[k].batch != id
      ensures Valid(keys, 0, running)
    {
    }

    lemma Skips(keys: seq<K>, i: nat, running: Registry<K>)
      requires Valid(keys, i, running) && i < |keys|
      ensures Valid(keys, i + 1, running)
    {
    }

    lemma Owns(keys: seq<K>, i: nat, running: Registry<K>)
      requires Valid(keys, i, running)
      ensures forall j | 0 <= j < |owned| :: owned[j] in running && running[owned[j]] == FlightRef(id, j)
      ensures forall j, l | 0 <= j < l < |owned| :: owned[j] != owned[l]
    {
    }

    /** Claims keys[i]. The slab is never grown past its capacity, so no pointer into it moves. */
    method Claim(keys: seq<K>, i: nat, running: Registry<K>) returns (running': Registry<K>)
      requires i < |keys| && Valid(keys, i, running)
      modifies this
      ensures Valid(keys, i + 1, running')
      ensures capacity == if old(capacity).None? then Some(|keys| - i) else old(capacity)
      ensures |calls| <= capacity.value
      ensures keys[i] in running ==>
                running' == running && owned == old(owned) && joined == old(joined) + [(keys[i], running[keys[i]])]
      ensures keys[i] !in running ==>
                && running' == running[keys[i] := FlightRef(id, |old(owned)|)]
                && owned == old(owned) + [keys[i]] && joined == old(joined)
    {
      var key := keys[i];
      if capacity.None? {
        capacity := Some(|keys| - i);
      }
      assert |calls| + 1 <= capacity.value;  // the slice bound: going past it would panic
      calls := calls + [key];
      if key in running {
        calls := calls[..|calls| - 1];
        joined := joined + [(key, running[key])];
        return running;
      }
      running' := running[key := FlightRef(id, |calls| - 1)];
      if !copied {
        if |owned| == i {
          owned := keys[..i + 1];
          return;
        }
        copied := true;
      }
      owned := owned + [key];
    }
  }

  /** What the claims of the first `i` keys have come to, over the registry the batch found. */
  ghost predicate Claimed<K>(keys: seq<K>, hit: seq<bool>, i: nat, running: Registry<K>,
                             owned: seq<K>, joined: seq<(K, FlightRef)>, running': Registry<K>)
  {
    && i <= |keys| == |hit| && |owned| + |joined| == Misses(hit[..i])
    && (forall j | 0 <= j < |owned| :: owned[j] !in running)
    && (forall k | k in running :: k in running' && running'[k] == running[k])
    && (forall k | k in running' && k !in running :: k in owned)
    && (forall l | 0 <= l < i && !hit[l] :: keys[l] in running')
    && (forall j | 0 <= j < |joined| :: joined[j].0 in running' && running'[joined[j].0] == joined[j].1)
  }

  lemma ClaimedNone<K>(keys: seq<K>, hit: seq<bool>, running: Registry<K>)
    requires |hit| == |keys|
    ensures Claimed(keys, hit, 0, running, [], [], running)
  {
  }

  lemma MissesNext(hit: seq<bool>, i: nat)
    requires i < |hit|
    ensures Misses(hit[..i + 1]) == Misses(hit[..i]) + if hit[i] then 0 else 1
  {
    assert hit[..i + 1][..i] == hit[..i];
  }

  /** One more key: a hit changes nothing, a miss joins the running flight or owns a new one. */
  lemma ClaimedNext<K>(keys: seq<K>, hit: seq<bool>, i: nat, running: Registry<K>, owned: seq<K>,
                       joined: seq<(K, FlightRef)>,
                       running': Registry<K>, call: FlightRef)
    requires Claimed(keys, hit, i, running, owned, joined, running') && i < |keys|
    ensures hit[i] ==> Claimed(keys, hit, i + 1, running, owned, joined, running')
    ensures !hit[i] && keys[i] in running' ==>
              Claimed(keys, hit, i + 1, running, owned, joined + [(keys[i], running'[keys[i]])], running')
    ensures !hit[i] && keys[i] !in running' ==>
              Claimed(keys, hit, i + 1, running, owned + [keys[i]], joined, running'[keys[i] := call])
  {
    MissesNext(hit, i);
    assert keys[i] in owned + [keys[i]] && forall k | k in owned :: k in owned + [keys[i]];
  }

  lemma ClaimedAll<K>(keys: seq<K>, hit: seq<bool>, running: Registry<K>, owned: seq<K>, joined: seq<(K, FlightRef)>,
                      running': Registry<K>)
    requires Claimed(keys, hit, |keys|, running, owned, joined, running')
    ensures forall k | k in running :: k in running' && running'[k] == running[k]
    ensures forall i | 0 <= i < |keys| && !hit[i] :: keys[i] in running' && (keys[i] in running <==> keys[i] !in owned)
    ensures |owned| + |joined| == Misses(hit)
    ensures forall j | 0 <= j < |joined| :: joined[j].0 in running' && running'[joined[j].0] == joined[j].1
    ensures forall j | 0 <= j < |owned| :: owned[j] !in running
  {
    assert hit[..|keys|] == hit;
  }

  /** A whole batch that misses where `hit` is false: owned keys are distinct, every missed key is owned or joined, and
      a key repeated in the batch joins the batch's own flight. */
  method ClaimAll<K(==)>(keys: seq<K>, hit: seq<bool>, id: nat, running: Registry<K>)
    returns (owned: seq<K>, joined: seq<(K, FlightRef)>, running': Registry<K>)
    requires |hit| == |keys| && forall k | k in running :: running[k].batch != id
    ensures forall j | 0 <= j < |owned| ::
              owned[j] in running' && running'[owned[j]] == FlightRef(id, j) && owned[j] !in running
    ensures forall j, l | 0 <= j < l < |owned| :: owned[j] != owned[l]
    ensures forall k | k in running :: k in running' && running'[k] == running[k]
    ensures forall i | 0 <= i < |keys| && !hit[i] :: keys[i] in running' && (keys[i] in running <==> keys[i] !in owned)
    ensures |owned| + |joined| == Misses(hit)
    ensures forall j | 0 <= j < |joined| :: joined[j].0 in running' && running'[joined[j].0] == joined[j].1
  {
    hide *;
    var c := new Claims<K>(id);
    running' := running;
    var i := 0;
    c.Starts(keys, running);
    ClaimedNone(keys, hit, running);
    while i < |keys|
      invariant 0 <= i <= |keys| && fresh(c) && c.id == id
      invariant c.Valid(keys, i, running') && Claimed(keys, hit, i, running, c.owned, c.joined, running')
    {
      ClaimedNext(keys, hit, i, running, c.owned, c.joined, running', FlightRef(id, |c.owned|));
      if !hit[i] {
        running' := c.Claim(keys, i, running');
      } else {
        c.Skips(keys, i, running');
      }
      i := i + 1;
    }
    ClaimedAll(keys, hit, running, c.owned, c.joined, running');
    c.Owns(keys, i, running');
    owned, joined := c.owned, c.joined;
  }

  function Misses(hit: seq<bool>): nat {
    if hit == [] then 0 else Misses(hit[..|hit| - 1]) + if hit[|hit| - 1] then 0 else 1
  }
}

/** Handing a loader's answer to the flights a batch owns. */
module AssignLoaded {

  datatype KeyVal<K, V> = KeyVal(key: K, value: V)

  /** A flight's result fields. */
  datatype Result<V> = Loaded(value: V) | Missing(err: nat)

  const OWNED_SCAN_MAX := 32

  ghost predicate Distinct<K>(s: seq<K>) {
    forall i, j | 0 <= i < j < |s| :: s[i] != s[j]
  }

  /** The last answer for `key`, or `err`: what the flight of an owned key must carry. */
  function Answer<K(==), V>(loaded: seq<KeyVal<K, V>>, key: K, err: nat): Result<V> {
    if loaded == [] then Missing(err)
    else
      var last := loaded[|loaded| - 1];
      if last.key == key then Loaded(last.value) else Answer(loaded[..|loaded| - 1], key, err)
  }

  /** Every owned key with its slot, the first occurrence winning. */
  method OwnedIndex<K(==)>(owned: seq<K>) returns (index: map<K, nat>)
    ensures forall k :: k in index <==> k in owned
    ensures forall k | k in index :: index[k] < |owned| && owned[index[k]] == k && k !in owned[..index[k]]
  {
    index := map[];
    var i := |owned|;
    while i > 0
      invariant 0 <= i <= |owned|
      invariant forall k :: k in index <==> k in owned[i..]
      invariant forall k | k in index :: i <= index[k] < |owned| && owned[index[k]] == k && k !in owned[i..index[k]]
    {
      i := i - 1;
      assert owned[i..] == [owned[i]] + owned[i + 1..];
      forall k | k in index && k != owned[i] ensures k !in owned[i..index[k]] {
        assert owned[i..index[k]] == [owned[i]] + owned[i + 1..index[k]];
      }
      index := index[owned[i] := i];
    }
  }

  /** The scan or the index: the slot of an owned key, or none. */
  method IndexOf<K(==)>(owned: seq<K>, key: K, index: map<K, nat>, indexed: bool) returns (at: int)
    requires indexed ==> forall k :: k in index <==> k in owned
    requires indexed ==> forall k | k in index :: index[k] < |owned| && owned[index[k]] == k && k !in owned[..index[k]]
    ensures -1 <= at < |owned|
    ensures at == -1 <==> key !in owned
    ensures at >= 0 ==> owned[at] == key && key !in owned[..at]
  {
    if indexed {
      return if key in index then index[key] else -1;
    }
    for i := 0 to |owned|
      invariant key !in owned[..i]
    {
      if owned[i] == key {
        return i;
      }
    }
    return -1;
  }

  /** Every owned flight ends with the last answer for its key, or with the error; `found` lists the answers that were
      asked for, in the loader's order. */
  method Assign<K(==), V>(owned: seq<K>, loaded: seq<KeyVal<K, V>>, err: nat)
    returns (calls: seq<Result<V>>, found: seq<KeyVal<K, V>>)
    requires Distinct(owned)
    ensures |calls| == |owned| && forall j | 0 <= j < |owned| :: calls[j] == Answer(loaded, owned[j], err)
    ensures found == Owned(loaded, owned)
  {
    calls := seq(|owned|, _ => Missing(err));
    found := [];
    var index: map<K, nat>, indexed := map[], false;
    var i := 0;
    assert loaded[..0] == [];
    while i < |loaded|
      invariant 0 <= i <= |loaded| && |calls| == |owned|
      invariant indexed ==> forall k :: k in index <==> k in owned
      invariant indexed ==> forall k | k in index ::
                  index[k] < |owned| && owned[index[k]] == k && k !in owned[..index[k]]
      invariant forall j | 0 <= j < |owned| :: calls[j] == Answer(loaded[..i], owned[j], err)
      invariant found == Owned(loaded[..i], owned)
    {
      var item := loaded[i];
      assert loaded[..i + 1] == loaded[..i] + [item];
      assert loaded[..i + 1][..i] == loaded[..i];
      var j: int := i;
      if j >= |owned| || owned[j] != item.key {
        if !indexed && |owned| > OWNED_SCAN_MAX {
          index := OwnedIndex(owned);
          indexed := true;
        }
        j := IndexOf(owned, item.key, index, indexed);
      }
      if j >= 0 {
        calls := calls[j := Loaded(item.value)];
        found := found + [item];
      }
      i := i + 1;
    }
    assert loaded[..i] == loaded;
  }

  /** The answers to keys that were asked for. */
  function Owned<K(==), V>(loaded: seq<KeyVal<K, V>>, owned: seq<K>): seq<KeyVal<K, V>> {
    if loaded == [] then []
    else
      var rest, last := Owned(loaded[..|loaded| - 1], owned), loaded[|loaded| - 1];
      if last.key in owned then rest + [last] else rest
  }
}
