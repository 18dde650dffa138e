/** Saving and loading, step by step over the stream. */
module Snapshots {
  import opened Options
  import opened SnapshotFormat
  import ExpiryScale

  datatype Codec<!T> = Codec(marshal: T -> Option<seq<Byte>>, unmarshal: seq<Byte> -> Option<T>)

  /** An item as the walk hands it to the saver, with its remaining lifetime, or as a load stores it. */
  datatype Item<K, V> = Item(key: K, value: V, life: int)

  datatype Entry<K, V> = Entry(key: K, value: V, word: nat)

  /** The records of the items before the first one a codec refuses, and whether there was none. */
  function Marshalled<K, V>(items: seq<Item<K, V>>, keys: Codec<K>, values: Codec<V>): (r: (seq<Record>, bool)) {
    if items == [] then ([], true)
    else WithItem(Marshalled(items[..|items| - 1], keys, values), items[|items| - 1], keys, values)
  }

  function WithItem<K, V>(before: (seq<Record>, bool), item: Item<K, V>, keys: Codec<K>,
                          values: Codec<V>): (seq<Record>, bool) {
    var key, value := keys.marshal(item.key), values.marshal(item.value);
    if before.1 && key.Some? && value.Some? then
      (before.0 + [Record(key.value, value.value, LifeWord(item.life))], true)
    else (before.0, false)
  }

  /** The entries of the records before the first one a codec refuses, and whether there was none. */
  function Unmarshalled<K, V>(rs: seq<Record>, keys: Codec<K>, values: Codec<V>): (r: (seq<Entry<K, V>>, bool)) {
    if rs == [] then ([], true)
    else WithRecord(Unmarshalled(rs[..|rs| - 1], keys, values), rs[|rs| - 1], keys, values)
  }

  function WithRecord<K, V>(before: (seq<Entry<K, V>>, bool), r: Record, keys: Codec<K>, values: Codec<V>)
    : (seq<Entry<K, V>>, bool)
  {
    var key, value := keys.unmarshal(r.key), values.unmarshal(r.value);
    if before.1 && key.Some? && value.Some? then (before.0 + [Entry(key.value, value.value, r.life)], true)
    else (before.0, false)
  }

  ghost predicate Lossless<T>(codec: Codec<T>, x: T) {
    codec.marshal(x).Some? && codec.unmarshal(codec.marshal(x).value) == Some(x)
  }

  function EntryOf<K, V>(item: Item<K, V>): Entry<K, V> { Entry(item.key, item.value, LifeWord(item.life)) }

  function EntriesOf<K, V>(items: seq<Item<K, V>>): seq<Entry<K, V>> {
    seq(|items|, i requires 0 <= i < |items| => EntryOf(items[i]))
  }

  /** Codecs that invert each other on every item carry a whole snapshot through. */
  lemma {:induction false} CodecsInvert<K, V>(items: seq<Item<K, V>>, keys: Codec<K>, values: Codec<V>)
    requires forall i | 0 <= i < |items| :: Lossless(keys, items[i].key) && Lossless(values, items[i].value)
    ensures Marshalled(items, keys, values).1
    ensures Unmarshalled(Marshalled(items, keys, values).0, keys, values) == (EntriesOf(items), true)
  {
    if items != [] {
      hide WithItem, WithRecord, Lossless, EntryOf, EntriesOf;
      var rest, last := items[..|items| - 1], items[|items| - 1];
      CodecsInvert(rest, keys, values);
      var rs := Marshalled(rest, keys, values).0;
      CodecsInvertOne(rs, EntriesOf(rest), last, keys, values);
      var all := Marshalled(items, keys, values).0;
      assert all[..|all| - 1] == rs;
      EntriesButLast(items);
    } else {
      assert EntriesOf(items) == [];
    }
  }

  lemma EntriesButLast<K, V>(items: seq<Item<K, V>>)
    requires items != []
    ensures EntriesOf(items) == EntriesOf(items[..|items| - 1]) + [EntryOf(items[|items| - 1])]
  {
  }

  lemma CodecsInvertOne<K, V>(rs: seq<Record>, es: seq<Entry<K, V>>, item: Item<K, V>, keys: Codec<K>, values: Codec<V>)
    requires Lossless(keys, item.key) && Lossless(values, item.value)
    ensures var r := WithItem((rs, true), item, keys, values);
            && r.1 && |r.0| == |rs| + 1 && r.0[..|rs|] == rs
            && WithRecord((es, true), r.0[|rs|], keys, values) == (es + [EntryOf(item)], true)
  {
  }

  class Writer {
    var out: seq<Byte>

    constructor ()
      ensures out == []
    {
      out := [];
    }

    /** A varint length, then the payload. */
    method WriteChunk(size: nat, payload: seq<Byte>)
      modifies this
      ensures out == old(out) + Varint(size) + payload
    {
      var x := size;
      var head: seq<Byte> := [];
      while x >= 128
        invariant head + Varint(x) == Varint(size)
      {
        assert Varint(x) == [128 + x % 128] + Varint(x / 128);
        assert head + Varint(x) == (head + [128 + x % 128]) + Varint(x / 128);
        head := head + [128 + x % 128];
        x := x / 128;
      }
      head := head + [x];
      out := out + head + payload;
    }

    /** Writes the header, the items, and the end marker; a codec failure leaves the stream without its end. */
    method SaveTo<K, V>(savedAt: int, items: seq<Item<K, V>>, keys: Codec<K>, values: Codec<V>) returns (ok: bool)
      requires out == [] && -I64 <= savedAt < I64
      modifies this
      ensures ok <==> Marshalled(items, keys, values).1
      ensures var rs := Marshalled(items, keys, values).0;
              out == if ok then Stream(savedAt, rs) else Header(savedAt) + EncodedAll(rs)
    {
      hide *;
      StreamEnds(savedAt, []);
      MarshalStep(items, 0, keys, values);
      out := Header(savedAt);
      ghost var rs: seq<Record> := [];
      var i := 0;
      while i < |items|
        invariant 0 <= i <= |items| && Marshalled(items[..i], keys, values) == (rs, true)
        invariant out == Header(savedAt) + EncodedAll(rs)
      {
        MarshalStep(items, i, keys, values);
        WithItemIs(rs, items[i], keys, values);
        var key := keys.marshal(items[i].key);
        var value := if key.Some? then values.marshal(items[i].value) else None;
        if key.None? || value.None? {
          MarshalStops(items, i + 1, keys, values);
          return false;
        }
        ghost var was, r := out, Record(key.value, value.value, LifeWord(items[i].life));
        WriteChunk(|key.value| + 1, key.value);
        WriteChunk(|value.value|, value.value);
        WriteChunk(LifeWord(items[i].life), []);
        Appended(Header(savedAt), rs, r);
        rs := rs + [r];
        i := i + 1;
      }
      assert items[..i] == items;
      StreamEnds(savedAt, rs);
      WriteChunk(0, []);
      return true;
    }
  }

  lemma StreamEnds(savedAt: int, rs: seq<Record>)
    requires -I64 <= savedAt < I64
    ensures Stream(savedAt, rs) == Header(savedAt) + EncodedAll(rs) + Varint(0) + []
    ensures Header(savedAt) == Header(savedAt) + EncodedAll([])
  {
    hide Header, EncodedAll, Varint;
    assert EncodedAll([]) == [] by { NoneEncoded(); }
  }

  lemma NoneEncoded()
    ensures EncodedAll([]) == []
  {
  }

  lemma MarshalStep<K, V>(items: seq<Item<K, V>>, i: nat, keys: Codec<K>, values: Codec<V>)
    requires i <= |items|
    ensures i == 0 ==> Marshalled(items[..i], keys, values) == ([], true)
    ensures i < |items| ==>
              Marshalled(items[..i + 1], keys, values)
                == WithItem(Marshalled(items[..i], keys, values), items[i], keys, values)
  {
    hide WithItem;
    if i < |items| {
      assert items[..i + 1][..i] == items[..i];
    }
  }

  lemma WithItemIs<K, V>(rs: seq<Record>, item: Item<K, V>, keys: Codec<K>, values: Codec<V>)
    ensures var key, value := keys.marshal(item.key), values.marshal(item.value);
            && (key.None? || value.None? ==> WithItem((rs, true), item, keys, values) == (rs, false))
            && (key.Some? && value.Some? ==>
                  WithItem((rs, true), item, keys, values)
                    == (rs + [Record(key.value, value.value, LifeWord(item.life))], true))
  {
  }

  /** Nothing is marshalled past the first failure. */
  lemma {:induction false} MarshalStops<K, V>(items: seq<Item<K, V>>, i: nat, keys: Codec<K>, values: Codec<V>)
    requires i <= |items| && !Marshalled(items[..i], keys, values).1
    ensures Marshalled(items, keys, values) == Marshalled(items[..i], keys, values)
    decreases |items| - i
  {
    if i == |items| {
      assert items[..i] == items;
    } else {
      MarshalStep(items, i, keys, values);
      MarshalStops(items, i + 1, keys, values);
    }
  }

  lemma {:induction false} EncodedOneMore(rs: seq<Record>, r: Record)
    ensures EncodedAll(rs + [r]) == EncodedAll(rs) + Encoded(r)
  {
    hide Encoded;
    if rs == [] {
      assert rs + [r] == [r] && [r][1..] == [];
    } else {
      EncodedOneMore(rs[1..], r);
      assert (rs + [r])[1..] == rs[1..] + [r];
    }
  }

  lemma Appended(head: seq<Byte>, rs: seq<Record>, r: Record)
    ensures head + EncodedAll(rs) + Varint(|r.key| + 1) + r.key + Varint(|r.value|) + r.value + Varint(r.life) + []
         == head + EncodedAll(rs + [r])
  {
    hide EncodedAll, Varint;
    EncodedOneMore(rs, r);
  }

  /** What a load stores: the item, and the lifetime it restores unless the configured one applies. */
  datatype Stored<K, V> = Stored(key: K, value: V, ttl: Option<int>)

  /** The items a load stores: with the original TTLs, those already past their moment are skipped. */
  function Restored<K, V>(entries: seq<Entry<K, V>>, keepTtl: bool, savedAt: int, now: int): seq<Stored<K, V>> {
    if entries == [] then []
    else
      var n := |entries| - 1;
      WithEntry(Restored(entries[..n], keepTtl, savedAt, now), entries[n], keepTtl, savedAt, now)
  }

  function WithEntry<K, V>(before: seq<Stored<K, V>>, e: Entry<K, V>, keepTtl: bool, savedAt: int,
                           now: int): seq<Stored<K, V>> {
    if !keepTtl || e.word == 0 then before + [Stored(e.key, e.value, None)]
    else
      var remaining := RestoredDeadline(savedAt, e.word) - now;
      if remaining <= 0 then before else before + [Stored(e.key, e.value, Some(remaining))]
  }

  ghost function Lifted(r: Read<nat>, x: nat, unit: nat): Read<nat> {
    match r
    case Got(y, rest) => Got(x + unit * y, rest)
    case Failed => Failed
  }

  lemma LiftStep(bs: seq<Byte>, i: nat, x: nat, unit: nat)
    requires i < MAX_VARINT && bs != [] && bs[0] >= 128
    ensures (bs[0] - 128) * unit >= 0
    ensures Lifted(Uvarint(bs, i), x, unit) == Lifted(Uvarint(bs[1..], i + 1), x + (bs[0] - 128) * unit, unit * 128)
  {
    Horner(x, unit, bs[0] - 128, 0);
    var later := Uvarint(bs[1..], i + 1);
    if later.Got? {
      Horner(x, unit, bs[0] - 128, later.value);
    }
  }

  lemma Horner(x: nat, unit: nat, d: nat, y: nat)
    ensures d * unit >= 0 && x + unit * (d + 128 * y) == (x + d * unit) + (unit * 128) * y
  {
    assert unit * (d + 128 * y) == unit * d + unit * (128 * y);
  }

  lemma LiftStarts(bs: seq<Byte>)
    ensures Lifted(Uvarint(bs, 0), 0, 1) == Uvarint(bs, 0)
  {
    hide Uvarint;
  }

  lemma LiftEnds(bs: seq<Byte>, i: nat, x: nat, unit: nat)
    requires i <= MAX_VARINT
    ensures i == MAX_VARINT || bs == [] ==> Lifted(Uvarint(bs, i), x, unit) == Failed
    ensures i < MAX_VARINT && bs != [] && bs[0] < 128 ==>
              Lifted(Uvarint(bs, i), x, unit) == if i == MAX_VARINT - 1 && bs[0] > 1 then Failed
                else Got(x + unit * bs[0], bs[1..])
  {
  }

  class Reader {
    const data: seq<Byte>
    var pos: nat

    constructor (data: seq<Byte>)
      ensures this.data == data && pos == 0 && Rest() == data
    {
      this.data, pos := data, 0;
    }

    function Rest(): seq<Byte>
      requires pos <= |data|
      reads this
    {
      data[pos..]
    }

    method ReadUvarint() returns (r: Option<nat>)
      requires pos <= |data|
      modifies this
      ensures pos <= |data|
      ensures match Uvarint(old(Rest()), 0)
              case Got(x, rest) => r == Some(x) && Rest() == rest
              case Failed => r == None
    {
      hide Uvarint;
      ghost var all := Rest();
      var x: nat, unit: nat, i: nat := 0, 1, 0;
      LiftStarts(all);
      while i < MAX_VARINT
        invariant i <= MAX_VARINT && pos <= |data|
        invariant Lifted(Uvarint(Rest(), i), x, unit) == Uvarint(all, 0)
      {
        LiftEnds(Rest(), i, x, unit);
        if pos == |data| {
          return None;
        }
        var b := data[pos];
        assert Rest()[0] == b && data[pos + 1..] == Rest()[1..];
        if b < 128 {
          pos := pos + 1;
          if i == MAX_VARINT - 1 && b > 1 {
            return None;
          }
          return Some(x + unit * b);
        }
        LiftStep(Rest(), i, x, unit);
        pos := pos + 1;
        x, unit, i := x + (b - 128) * unit, unit * 128, i + 1;
      }
      LiftEnds(Rest(), i, x, unit);
      return None;
    }

    method ReadChunk(size: nat) returns (r: Option<seq<Byte>>)
      requires pos <= |data|
      modifies this
      ensures pos <= |data|
      ensures match SnapshotFormat.ReadChunk(old(Rest()), size)
              case Got(chunk, rest) => r == Some(chunk) && Rest() == rest
              case Failed => r == None
    {
      if size > MAX_CHUNK || |data| - pos < size {
        return None;
      }
      assert Rest()[..size] == data[pos..pos + size];
      r := Some(data[pos..pos + size]);
      pos := pos + size;
    }

    method ReadHeader() returns (r: Option<int>)
      requires pos <= |data|
      modifies this
      ensures pos <= |data|
      ensures match SnapshotFormat.ReadHeader(old(Rest()))
              case Got(savedAt, rest) => r == Some(savedAt) && Rest() == rest
              case Failed => r == None
    {
      if |data| - pos < HEADER_SIZE {
        return None;
      }
      var header := data[pos..pos + HEADER_SIZE];
      assert header[..8] == Rest()[..8] && header[9..] == Rest()[9..HEADER_SIZE];
      pos := pos + HEADER_SIZE;
      if header[..8] != MAGIC || header[8] != VERSION {
        return None;
      }
      return Some(FromWord(FromBigEndian(header[9..])));
    }

    /** One record, the end marker, or an error. */
    method ReadRecord() returns (r: Next)
      requires pos <= |data|
      modifies this
      ensures pos <= |data| && r == SnapshotFormat.ReadRecord(old(Rest()))
      ensures r.More? ==> r.rest == Rest() && |Rest()| < |old(Rest())|
    {
      hide Uvarint, SnapshotFormat.ReadChunk;
      var keyLen := ReadUvarint();
      if keyLen.None? {
        return Broken;
      }
      if keyLen.value == 0 {
        return End;
      }
      var key := ReadChunk(keyLen.value - 1);
      if key.None? {
        return Broken;
      }
      var valueLen := ReadUvarint();
      if valueLen.None? {
        return Broken;
      }
      var value := ReadChunk(valueLen.value);
      if value.None? {
        return Broken;
      }
      var life := ReadUvarint();
      if life.None? {
        return Broken;
      }
      return More(Record(key.value, value.value, life.value), Rest());
    }

    /** Stores what the stream holds, item by item; whatever was read before an error stays stored. Succeeds exactly
        when the end marker was met and the codecs took every record. */
    method LoadFrom<K, V>(keys: Codec<K>, values: Codec<V>, keepTtl: bool, now: int)
      returns (stored: seq<Stored<K, V>>, ok: bool)
      requires pos <= |data|
      modifies this
      ensures match Parse(old(Rest()))
              case Refused => stored == [] && !ok
              case Outcome(savedAt, rs, complete) =>
                && stored == Restored(Unmarshalled(rs, keys, values).0, keepTtl, savedAt, now)
                && (ok <==> complete && Unmarshalled(rs, keys, values).1)
    {
      hide *;
      ghost var all := Rest();
      ParseCases(all);
      stored := [];
      var header := ReadHeader();
      if header.None? {
        return [], false;
      }
      var savedAt := header.value;
      ghost var body, done, entries := Rest(), [], [];
      UnmarshalStep([], keys, values);
      NothingRestored<K, V>(keepTtl, savedAt, now);
      Joins(done, Records(body));
      while true
        invariant pos <= |data| && Records(body) == (done + Records(Rest()).0, Records(Rest()).1)
        invariant Unmarshalled(done, keys, values) == (entries, true)
        invariant stored == Restored(entries, keepTtl, savedAt, now)
        decreases |Rest()|
      {
        RecordsCases(Rest());
        ghost var later := Records(Rest());
        var next := ReadRecord();
        if next.End? {
          Joins(done, later);
          return stored, true;
        }
        if next.Broken? {
          Joins(done, later);
          return stored, false;
        }
        var r := next.record;
        UnmarshalStep(done + [r], keys, values);
        assert (done + [r])[..|done|] == done;
        assert done + later.0 == (done + [r]) + Records(Rest()).0;
        WithRecordIs(entries, r, keys, values);
        var key := keys.unmarshal(r.key);
        if key.None? {
          UnmarshalStops(done + [r], Records(Rest()).0, keys, values);
          return stored, false;
        }
        var value := values.unmarshal(r.value);
        if value.None? {
          UnmarshalStops(done + [r], Records(Rest()).0, keys, values);
          return stored, false;
        }
        ghost var e := Entry(key.value, value.value, r.life);
        RestoreStep(entries, e, keepTtl, savedAt, now);
        done, entries := done + [r], entries + [e];
        if keepTtl && r.life > 0 {
          var remaining := RestoredDeadline(savedAt, r.life) - now;
          if remaining > 0 {
            stored := stored + [Stored(key.value, value.value, Some(remaining))];
          }
        } else {
          stored := stored + [Stored(key.value, value.value, None)];
        }
      }
    }
  }

  lemma ParseCases(bs: seq<Byte>)
    ensures match SnapshotFormat.ReadHeader(bs)
            case Failed => Parse(bs) == Refused
            case Got(savedAt, rest) => Parse(bs) == Outcome(savedAt, Records(rest).0, Records(rest).1)
  {
  }

  lemma RecordsCases(bs: seq<Byte>)
    ensures match SnapshotFormat.ReadRecord(bs)
            case End => Records(bs) == ([], true)
            case Broken => Records(bs) == ([], false)
            case More(r, rest) => Records(bs) == ([r] + Records(rest).0, Records(rest).1)
  {
    hide SnapshotFormat.ReadRecord;
  }

  lemma Joins(done: seq<Record>, later: (seq<Record>, bool))
    ensures [] + later.0 == later.0 && (later.0, later.1) == later && done + [] == done
  {
  }

  lemma UnmarshalStep<K, V>(rs: seq<Record>, keys: Codec<K>, values: Codec<V>)
    ensures rs == [] ==> Unmarshalled(rs, keys, values) == ([], true)
    ensures rs != [] ==>
              Unmarshalled(rs, keys, values)
                == WithRecord(Unmarshalled(rs[..|rs| - 1], keys, values), rs[|rs| - 1], keys, values)
  {
  }

  lemma WithRecordIs<K, V>(entries: seq<Entry<K, V>>, r: Record, keys: Codec<K>, values: Codec<V>)
    ensures var key, value := keys.unmarshal(r.key), values.unmarshal(r.value);
            && (key.None? || value.None? ==> WithRecord((entries, true), r, keys, values) == (entries, false))
            && (key.Some? && value.Some? ==>
                  WithRecord((entries, true), r, keys, values)
                    == (entries + [Entry(key.value, value.value, r.life)], true))
  {
  }

  /** Nothing is unmarshalled past the first failure. */
  lemma {:induction false} UnmarshalStops<K, V>(a: seq<Record>, b: seq<Record>, keys: Codec<K>, values: Codec<V>)
    requires !Unmarshalled(a, keys, values).1
    ensures Unmarshalled(a + b, keys, values) == Unmarshalled(a, keys, values)
  {
    if b == [] {
      assert a + b == a;
    } else {
      UnmarshalStops(a, b[..|b| - 1], keys, values);
      assert (a + b)[..|a + b| - 1] == a + b[..|b| - 1];
    }
  }

  lemma NothingRestored<K, V>(keepTtl: bool, savedAt: int, now: int)
    ensures Restored<K, V>([], keepTtl, savedAt, now) == []
  {
  }

  lemma RestoreStep<K, V>(entries: seq<Entry<K, V>>, e: Entry<K, V>, keepTtl: bool, savedAt: int, now: int)
    ensures var before, after := Restored(entries, keepTtl, savedAt, now),
                                 Restored(entries + [e], keepTtl, savedAt, now);
            && (!keepTtl || e.word == 0 ==> after == before + [Stored(e.key, e.value, None)])
            && (keepTtl && e.word > 0 ==>
                  var remaining := RestoredDeadline(savedAt, e.word) - now;
                  after == if remaining <= 0 then before else before + [Stored(e.key, e.value, Some(remaining))])
  {
    assert (entries + [e])[..|entries|] == entries;
  }

  /** Saving and loading back: every item returns, in order, when the codecs invert each other on the items and no key
      or value exceeds the chunk limit. */
  lemma SaveThenLoad<K, V>(savedAt: int, items: seq<Item<K, V>>, keys: Codec<K>, values: Codec<V>)
    requires -I64 <= savedAt < I64 && AllMachine(Marshalled(items, keys, values).0)
    requires forall i | 0 <= i < |items| :: Lossless(keys, items[i].key) && Lossless(values, items[i].value)
    requires forall r | r in Marshalled(items, keys, values).0 :: Fits(r)
    ensures var rs := Marshalled(items, keys, values).0;
            && Parse(Stream(savedAt, rs)) == Outcome(savedAt, rs, true)
            && Unmarshalled(rs, keys, values) == (EntriesOf(items), true)
  {
    hide *;
    var rs := Marshalled(items, keys, values).0;
    CodecsInvert(items, keys, values);
    forall i | 0 <= i < |rs| ensures Fits(rs[i]) {
      assert rs[i] in rs;
    }
    RoundTrip(savedAt, rs, []);
    assert Stream(savedAt, rs) + [] == Stream(savedAt, rs);
  }

  // ---- A whole snapshot, over the items alone ----

  /** The moment a saved item expires on the stream's schedule: its own, moved up to a whole second after the save. */
  function Moment(savedAt: int, life: int): (t: int)
    ensures savedAt + life <= t < savedAt + life + SECOND && (t - savedAt) % SECOND == 0
  {
    savedAt + life + (-life) % SECOND
  }

  lemma MomentIsRestored(savedAt: int, life: int)
    requires life > 0
    ensures LifeWord(life) > 0 && RestoredDeadline(savedAt, LifeWord(life)) == Moment(savedAt, life)
  {
    DeadlineKept(savedAt, life);
    var a, b := RestoredDeadline(savedAt, LifeWord(life)), Moment(savedAt, life);
    assert (a - savedAt) % SECOND == 0;
    assert -SECOND < a - b < SECOND;
  }

  /** Does a saved item come back? */
  predicate Returns<K, V>(item: Item<K, V>, keepTtl: bool, savedAt: int, now: int) {
    !keepTtl || item.life <= 0 || Moment(savedAt, item.life) > now
  }

  /** The items that come back, in order. */
  function Returning<K, V>(items: seq<Item<K, V>>, keepTtl: bool, savedAt: int, now: int): seq<Item<K, V>> {
    if items == [] then []
    else
      var rest, last := Returning(items[..|items| - 1], keepTtl, savedAt, now), items[|items| - 1];
      if Returns(last, keepTtl, savedAt, now) then rest + [last] else rest
  }

  /** How an item comes back: as it was, without a lifetime of its own if it had none or none was asked for, otherwise
      with what is left until its moment, which is less than a second more than it had. */
  ghost predicate BackAs<K, V>(item: Item<K, V>, stored: Stored<K, V>, keepTtl: bool, savedAt: int, now: int) {
    && stored.key == item.key && stored.value == item.value
    && if !keepTtl || item.life <= 0 then stored.ttl == None
       else
         && stored.ttl == Some(Moment(savedAt, item.life) - now) && stored.ttl.value > 0
         && savedAt + item.life - now <= stored.ttl.value < savedAt + item.life - now + SECOND
  }

  ghost predicate AllBack<K, V>(items: seq<Item<K, V>>, stored: seq<Stored<K, V>>, keepTtl: bool, savedAt: int,
                                now: int)
  {
    var back := Returning(items, keepTtl, savedAt, now);
    |stored| == |back| && forall i | 0 <= i < |back| :: BackAs(back[i], stored[i], keepTtl, savedAt, now)
  }

  lemma {:induction false} RestoredAreBack<K, V>(items: seq<Item<K, V>>, keepTtl: bool, savedAt: int, now: int)
    ensures AllBack(items, Restored(EntriesOf(items), keepTtl, savedAt, now), keepTtl, savedAt, now)
  {
    hide LifeWord, RestoredDeadline, Moment;
    if items != [] {
      var rest, last := items[..|items| - 1], items[|items| - 1];
      RestoredAreBack(rest, keepTtl, savedAt, now);
      assert EntriesOf(items) == EntriesOf(rest) + [EntryOf(last)];
      RestoreStep(EntriesOf(rest), EntryOf(last), keepTtl, savedAt, now);
      if last.life > 0 {
        MomentIsRestored(savedAt, last.life);
      } else {
        NoLifeNoWord(last.life);
      }
    }
  }

  lemma NoLifeNoWord(life: int)
    requires life <= 0
    ensures LifeWord(life) == 0
  {
  }

  /** The codec takes `x` and gives it back, within the chunk limit. */
  ghost predicate Carries<T>(codec: Codec<T>, x: T) {
    Lossless(codec, x) && |codec.marshal(x).value| <= MAX_CHUNK
  }

  /** Both codecs carry the item, and its lifetime is one the clock can tell. */
  ghost predicate Saveable<K, V>(item: Item<K, V>, keys: Codec<K>, values: Codec<V>) {
    Carries(keys, item.key) && Carries(values, item.value) && item.life + SECOND <= I64
  }

  lemma {:induction false} MarshalledFits<K, V>(items: seq<Item<K, V>>, keys: Codec<K>, values: Codec<V>)
    requires forall i | 0 <= i < |items| :: Saveable(items[i], keys, values)
    ensures AllMachine(Marshalled(items, keys, values).0)
    ensures forall r | r in Marshalled(items, keys, values).0 :: Fits(r)
    ensures forall i | 0 <= i < |items| :: Lossless(keys, items[i].key) && Lossless(values, items[i].value)
  {
    if items != [] {
      MarshalledFits(items[..|items| - 1], keys, values);
      LifeWordBound(items[|items| - 1].life);
      hide LifeWord;
      assert items[|items| - 1] == items[..][|items| - 1];
    }
  }

  lemma LifeWordBound(life: int)
    requires life + SECOND <= I64
    ensures LifeWord(life) < U64
  {
  }

  /** A snapshot saved and loaded back: with codecs that carry every key and value, exactly the items whose moment has
      not passed come back, in order and as they were. */
  method SaveAndLoad<K, V>(savedAt: int, items: seq<Item<K, V>>, keys: Codec<K>, values: Codec<V>, keepTtl: bool,
                           now: int)
    returns (stored: seq<Stored<K, V>>, ok: bool)
    requires -I64 <= savedAt < I64 && forall i | 0 <= i < |items| :: Saveable(items[i], keys, values)
    ensures ok && AllBack(items, stored, keepTtl, savedAt, now)
  {
    hide *;
    var w := new Writer();
    MarshalledFits(items, keys, values);
    SaveThenLoad(savedAt, items, keys, values);
    CodecsInvert(items, keys, values);
    var saved := w.SaveTo(savedAt, items, keys, values);
    var r := new Reader(w.out);
    stored, ok := r.LoadFrom(keys, values, keepTtl, now);
    RestoredAreBack(items, keepTtl, savedAt, now);
  }

  /** A restored item in a cache started at `epoch`, loaded `f` into its tick `n`. As long as that cache's TTL does not
      cap what is left and the item is not born expired, it is alive to every read before the moment it would have
      expired, and it is gone less than three clock units and a second after. */
  lemma RestoredLife(savedAt: int, life: int, now: int, epoch: int, n: nat, f: nat, m: nat, ttlUnits: nat)
    requires life > 0 && m > 0 && f < SECOND && 0 < ttlUnits <= ExpiryScale.EXPIRE_MAX - 1
    requires now - epoch == ExpiryScale.Ticks(n, SECOND) + f && ExpiryScale.Ticks(m, SECOND) > 0
    requires LifeWord(life) > 0 && RestoredDeadline(savedAt, LifeWord(life)) > now
    requires RestoredDeadline(savedAt, LifeWord(life)) - now
             <= ExpiryScale.Ticks(ttlUnits, ExpiryScale.Ticks(m, SECOND))
    ensures var remaining, unit := RestoredDeadline(savedAt, LifeWord(life)) - now, ExpiryScale.Ticks(m, SECOND);
            var clock, u := ExpiryScale.Clock(n, m), ExpiryScale.RestoredUnits(remaining, unit, ttlUnits);
            var off := ExpiryScale.OffsetIn(clock, remaining, unit, ttlUnits);
            && now + remaining >= savedAt + life
            && (ExpiryScale.NotEarly(n, f, m, SECOND, remaining, off) <==> !ExpiryScale.BornExpired(clock, u))
            && epoch + ExpiryScale.Ticks(ExpiryScale.GoneAt(n, m, u), SECOND) < savedAt + life + SECOND + 3 * unit
  {
    hide ExpiryScale.Ticks, ExpiryScale.CeilDiv, ExpiryScale.RestoredUnits, ExpiryScale.NotEarly;
    hide ExpiryScale.BornExpired, ExpiryScale.GoneAt, ExpiryScale.Clock, ExpiryScale.OffsetIn;
    DeadlineKept(savedAt, life);
    ExpiryScale.RestoredUncapped(n, f, m, SECOND, RestoredDeadline(savedAt, LifeWord(life)) - now, ttlUnits);
  }
}
