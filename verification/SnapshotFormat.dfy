/**
 The snapshot stream: a header (magic, version, save time), then per item a key chunk whose length is biased by one, a
 value chunk and a lifetime, and a zero length as the end marker. Lengths and lifetimes are base-128 varints.
 */
module SnapshotFormat {

  type Byte = b: int | 0 <= b < 256

  const U64: nat := 0x1_0000_0000_0000_0000
  const MAX_VARINT: nat := 10
  /** The largest key or value a load accepts. */
  const MAX_CHUNK: nat := 0x4000_0000

  datatype Read<T> = Got(value: T, rest: seq<Byte>) | Failed

  /** A varint, low seven bits first; every byte but the last has its top bit set. */
  function Varint(x: nat): (r: seq<Byte>)
    ensures |r| > 0
  {
    if x < 128 then [x] else [128 + x % 128] + Varint(x / 128)
  }

  /** Reads a varint whose byte number `i` comes next: at most ten bytes, the tenth at most 1. */
  function Uvarint(bs: seq<Byte>, i: nat): (r: Read<nat>)
    requires i <= MAX_VARINT
    ensures r.Got? ==> |r.rest| < |bs|
    decreases MAX_VARINT - i
  {
    if i == MAX_VARINT || bs == [] then Failed
    else if bs[0] < 128 then
      if i == MAX_VARINT - 1 && bs[0] > 1 then Failed else Got(bs[0], bs[1..])
    else
      match Uvarint(bs[1..], i + 1)
      case Got(y, rest) => Got(bs[0] - 128 + 128 * y, rest)
      case Failed => Failed
  }

  /** What still fits from byte number `i` on. */
  function Room(i: nat): (r: nat)
    requires i < MAX_VARINT
    ensures r >= 2 && (i < MAX_VARINT - 1 ==> r >= 256)
    decreases MAX_VARINT - i
  {
    if i == MAX_VARINT - 1 then 2 else 128 * Room(i + 1)
  }

  lemma RoomForAll()
    ensures Room(0) == U64
  {
    assert Room(8) == 128 * 2 && Room(7) == 128 * Room(8) && Room(6) == 128 * Room(7) && Room(5) == 128 * Room(6);
    assert Room(4) == 128 * Room(5) && Room(3) == 128 * Room(4) && Room(2) == 128 * Room(3) && Room(1) == 128 * Room(2);
  }

  /** What is read always fits a 64-bit word: the shifts never overflow. */
  lemma {:induction false} UvarintInRange(bs: seq<Byte>, i: nat)
    requires i < MAX_VARINT && Uvarint(bs, i).Got?
    ensures Uvarint(bs, i).value < Room(i)
    decreases MAX_VARINT - i
  {
    if bs[0] >= 128 {
      UvarintInRange(bs[1..], i + 1);
    }
  }

  lemma {:induction false} VarintWhole(x: nat, i: nat, rest: seq<Byte>)
    requires i < MAX_VARINT && x < Room(i)
    ensures Uvarint(Varint(x) + rest, i) == Got(x, rest)
    decreases MAX_VARINT - i
  {
    var bs := Varint(x) + rest;
    if x < 128 {
      assert bs[1..] == rest;
    } else {
      assert i + 1 < MAX_VARINT && x / 128 < Room(i + 1);
      VarintWhole(x / 128, i + 1, rest);
      assert bs[1..] == Varint(x / 128) + rest;
    }
  }

  lemma {:induction false} VarintCut(x: nat, i: nat, k: nat)
    requires i < MAX_VARINT && x < Room(i) && k < |Varint(x)|
    ensures Uvarint(Varint(x)[..k], i) == Failed
    decreases MAX_VARINT - i
  {
    if x >= 128 && k > 0 {
      assert Varint(x)[..k][1..] == Varint(x / 128)[..k - 1];
      VarintCut(x / 128, i + 1, k - 1);
    }
  }

  /** A uint64 survives its encoding, and no strict prefix of the encoding reads as anything. */
  lemma VarintExact(x: nat, rest: seq<Byte>)
    requires x < U64
    ensures Uvarint(Varint(x) + rest, 0) == Got(x, rest)
    ensures forall k: nat | k < |Varint(x)| :: Uvarint(Varint(x)[..k], 0) == Failed
  {
    RoomForAll();
    VarintWhole(x, 0, rest);
    forall k: nat | k < |Varint(x)| ensures Uvarint(Varint(x)[..k], 0) == Failed {
      VarintCut(x, 0, k);
    }
  }

  function ReadChunk(bs: seq<Byte>, size: nat): (r: Read<seq<Byte>>)
    ensures r.Got? ==> |r.rest| <= |bs|
  {
    if size > MAX_CHUNK || |bs| < size then Failed else Got(bs[..size], bs[size..])
  }

  /** An encoded item: `life` is zero without a TTL, else one more than its whole seconds. */
  datatype Record = Record(key: seq<Byte>, value: seq<Byte>, life: nat)

  /** Lengths and lifetimes fit the words the saver puts them in. */
  predicate Machine(r: Record) { |r.key| + 1 < U64 && |r.value| < U64 && r.life < U64 }

  /** The loader accepts the record's chunks. */
  predicate Fits(r: Record) { |r.key| <= MAX_CHUNK && |r.value| <= MAX_CHUNK }

  function KeyPart(r: Record): seq<Byte> { Varint(|r.key| + 1) + r.key }

  function ValuePart(r: Record): seq<Byte> { Varint(|r.value|) + r.value }

  function Encoded(r: Record): seq<Byte> { KeyPart(r) + (ValuePart(r) + Varint(r.life)) }

  /** The records of a stream, without the end marker. */
  function EncodedAll(rs: seq<Record>): seq<Byte> {
    if rs == [] then [] else Encoded(rs[0]) + EncodedAll(rs[1..])
  }

  function Body(rs: seq<Record>): seq<Byte> { EncodedAll(rs) + Varint(0) }

  /** A length-prefixed chunk. */
  function ReadSized(bs: seq<Byte>, bias: nat): (r: Read<seq<Byte>>)
    ensures r.Got? ==> |r.rest| < |bs|
  {
    match Uvarint(bs, 0)
    case Failed => Failed
    case Got(n, rest) => if n < bias then Failed else ReadChunk(rest, n - bias)
  }

  datatype Next = End | More(record: Record, rest: seq<Byte>) | Broken

  function ReadRecord(bs: seq<Byte>): (r: Next)
    ensures r.More? ==> |r.rest| < |bs|
  {
    if Uvarint(bs, 0).Got? && Uvarint(bs, 0).value == 0 then End
    else
      match ReadSized(bs, 1)
      case Failed => Broken
      case Got(key, afterKey) =>
        match ReadSized(afterKey, 0)
        case Failed => Broken
        case Got(value, afterValue) =>
          match Uvarint(afterValue, 0)
          case Failed => Broken
          case Got(life, rest) => More(Record(key, value, life), rest)
  }

  /** The records a load gets out of a body, and whether it met the end marker. */
  function Records(bs: seq<Byte>): (r: (seq<Record>, bool))
    decreases |bs|
  {
    match ReadRecord(bs)
    case End => ([], true)
    case Broken => ([], false)
    case More(record, rest) => var later := Records(rest); ([record] + later.0, later.1)
  }

  lemma SizedWhole(chunk: seq<Byte>, bias: nat, rest: seq<Byte>)
    requires |chunk| + bias < U64
    ensures ReadSized(Varint(|chunk| + bias) + chunk + rest, bias)
         == if |chunk| <= MAX_CHUNK then Got(chunk, rest) else Failed
  {
    hide Varint, Uvarint;
    VarintExact(|chunk| + bias, chunk + rest);
    assert Varint(|chunk| + bias) + chunk + rest == Varint(|chunk| + bias) + (chunk + rest);
    assert (chunk + rest)[..|chunk|] == chunk && (chunk + rest)[|chunk|..] == rest;
  }

  lemma SizedCut(chunk: seq<Byte>, bias: nat, k: nat)
    requires |chunk| + bias < U64 && k < |Varint(|chunk| + bias) + chunk|
    ensures ReadSized((Varint(|chunk| + bias) + chunk)[..k], bias) == Failed
  {
    var head := Varint(|chunk| + bias);
    VarintExact(|chunk| + bias, []);
    if k < |head| {
      assert (head + chunk)[..k] == head[..k];
    } else {
      assert (head + chunk)[..k] == head + chunk[..k - |head|];
      VarintExact(|chunk| + bias, chunk[..k - |head|]);
    }
  }

  /** A record starts with a non-zero length, so it is never taken for the end marker. */
  lemma NotTheEnd(r: Record, bs: seq<Byte>)
    requires Machine(r) && (bs <= Encoded(r) || Encoded(r) <= bs)
    ensures Uvarint(bs, 0).Got? ==> Uvarint(bs, 0).value != 0
  {
    hide Varint, Uvarint;
    var head := Varint(|r.key| + 1);
    VarintExact(|r.key| + 1, []);
    assert Encoded(r) == head + (r.key + (ValuePart(r) + Varint(r.life)));
    StartsWith(head, Encoded(r), bs);
    if |bs| >= |head| {
      VarintExact(|r.key| + 1, bs[|head|..]);
    }
  }

  lemma StartsWith(head: seq<Byte>, all: seq<Byte>, bs: seq<Byte>)
    requires head <= all && (bs <= all || all <= bs)
    ensures |bs| < |head| ==> bs == head[..|bs|]
    ensures |bs| >= |head| ==> bs == head + bs[|head|..]
  {
  }

  /** A whole record reads back, followed by whatever comes next; an oversized one is refused. */
  lemma RecordWhole(r: Record, rest: seq<Byte>)
    requires Machine(r)
    ensures ReadRecord(Encoded(r) + rest) == if Fits(r) then More(r, rest) else Broken
  {
    hide Varint, Uvarint, ReadSized, ReadChunk;
    NotTheEnd(r, Encoded(r) + rest);
    var afterValue := Varint(r.life) + rest;
    var afterKey := Varint(|r.value|) + r.value + afterValue;
    assert Encoded(r) + rest == Varint(|r.key| + 1) + r.key + afterKey;
    SizedWhole(r.key, 1, afterKey);
    SizedWhole(r.value, 0, afterValue);
    VarintExact(r.life, rest);
  }

  /** A cut record is never a record. */
  lemma RecordCut(r: Record, k: nat)
    requires Machine(r) && k < |Encoded(r)|
    ensures ReadRecord(Encoded(r)[..k]) == Broken
  {
    hide Varint, Uvarint, ReadSized, ReadChunk;
    var bs, keyPart, valuePart := Encoded(r)[..k], KeyPart(r), ValuePart(r);
    NotTheEnd(r, bs);
    if k < |keyPart| {
      assert bs == keyPart[..k];
      SizedCut(r.key, 1, k);
    } else {
      var k1 := k - |keyPart|;
      var afterKey := (valuePart + Varint(r.life))[..k1];
      assert bs == Varint(|r.key| + 1) + r.key + afterKey;
      SizedWhole(r.key, 1, afterKey);
      if k1 < |valuePart| {
        assert afterKey == valuePart[..k1];
        SizedCut(r.value, 0, k1);
      } else {
        var k2 := k1 - |valuePart|;
        assert afterKey == Varint(|r.value|) + r.value + Varint(r.life)[..k2];
        SizedWhole(r.value, 0, Varint(r.life)[..k2]);
        VarintExact(r.life, []);
      }
    }
  }

  /** How many leading records the loader accepts. */
  function Accepted(rs: seq<Record>): (m: nat)
    ensures m <= |rs|
    ensures m == |rs| <==> forall i | 0 <= i < |rs| :: Fits(rs[i])
  {
    if rs == [] || !Fits(rs[0]) then 0
    else
      var m := Accepted(rs[1..]);
      assert forall i | 0 < i < |rs| :: rs[i] == rs[1..][i - 1];
      m + 1
  }

  ghost predicate AllMachine(rs: seq<Record>) { forall i | 0 <= i < |rs| :: Machine(rs[i]) }

  lemma BodyHead(rs: seq<Record>)
    requires rs != []
    ensures Body(rs) == Encoded(rs[0]) + Body(rs[1..])
  {
    hide Encoded, Varint;
  }

  lemma EmptyBody(rest: seq<Byte>)
    ensures |Body([])| == 1 && Records([]) == ([], false) && Records(Body([]) + rest) == ([], true)
  {
    VarintExact(0, rest);
    assert Body([]) + rest == Varint(0) + rest;
  }

  lemma RecordsStep(bs: seq<Byte>)
    ensures ReadRecord(bs).Broken? ==> Records(bs) == ([], false)
    ensures ReadRecord(bs).More? ==>
              var later := Records(ReadRecord(bs).rest);
              Records(bs) == ([ReadRecord(bs).record] + later.0, later.1)
  {
    hide ReadRecord;
  }

  lemma MachineAt(rs: seq<Record>)
    requires AllMachine(rs) && rs != []
    ensures Machine(rs[0]) && AllMachine(rs[1..])
  {
  }

  lemma AcceptedStep(rs: seq<Record>)
    requires rs != []
    ensures !Fits(rs[0]) ==> Accepted(rs) == 0 && rs[..Accepted(rs)] == []
    ensures Fits(rs[0]) ==>
              Accepted(rs) == Accepted(rs[1..]) + 1 && rs[..Accepted(rs)] == [rs[0]] + rs[1..][..Accepted(rs[1..])]
  {
    hide Fits;
  }

  /** Loading a complete body yields the records up to the first oversized one, and succeeds exactly when there is
      none. */
  lemma {:induction false} BodyWhole(rs: seq<Record>, rest: seq<Byte>)
    requires AllMachine(rs)
    ensures Records(Body(rs) + rest) == (rs[..Accepted(rs)], Accepted(rs) == |rs|)
  {
    hide *;
    if rs == [] {
      EmptyBody(rest);
      assert rs[..Accepted(rs)] == [];
    } else {
      BodyHead(rs);
      assert Body(rs) + rest == Encoded(rs[0]) + (Body(rs[1..]) + rest);
      MachineAt(rs);
      AcceptedStep(rs);
      RecordsStep(Body(rs) + rest);
      RecordWhole(rs[0], Body(rs[1..]) + rest);
      if Fits(rs[0]) {
        BodyWhole(rs[1..], rest);
      }
    }
  }

  /** How many records are whole in the first `k` bytes. */
  function WholeIn(rs: seq<Record>, k: nat): (m: nat)
    ensures m <= |rs|
    ensures |EncodedAll(rs[..m])| <= k
    ensures m < |rs| ==> k < |EncodedAll(rs[..m + 1])|
  {
    if rs == [] || k < |Encoded(rs[0])| then
      assert rs != [] ==> rs[..1][1..] == [] && rs[..1][0] == rs[0];
      0
    else
      var m := WholeIn(rs[1..], k - |Encoded(rs[0])|);
      assert rs[..m + 1][1..] == rs[1..][..m];
      assert m + 1 < |rs| ==> rs[..m + 2][1..] == rs[1..][..m + 1];
      m + 1
  }

  lemma WholeInStep(rs: seq<Record>, k: nat)
    requires rs != []
    ensures k < |Encoded(rs[0])| ==> rs[..WholeIn(rs, k)] == []
    ensures k >= |Encoded(rs[0])| ==>
              rs[..WholeIn(rs, k)] == [rs[0]] + rs[1..][..WholeIn(rs[1..], k - |Encoded(rs[0])|)]
  {
    hide Encoded;
  }

  /** Loading a truncated body fails, after yielding exactly the records that are whole in it. */
  lemma {:induction false} BodyCut(rs: seq<Record>, k: nat)
    requires AllMachine(rs) && (forall i | 0 <= i < |rs| :: Fits(rs[i])) && k < |Body(rs)|
    ensures Records(Body(rs)[..k]) == (rs[..WholeIn(rs, k)], false)
  {
    hide *;
    if rs == [] {
      EmptyBody([]);
      assert Body(rs)[..k] == [] && rs[..WholeIn(rs, k)] == [];
    } else {
      var first := Encoded(rs[0]);
      BodyHead(rs);
      WholeInStep(rs, k);
      RecordsStep(Body(rs)[..k]);
      MachineAt(rs);
      if k < |first| {
        assert Body(rs)[..k] == first[..k];
        RecordCut(rs[0], k);
      } else {
        var k1 := k - |first|;
        assert Body(rs)[..k] == first + Body(rs[1..])[..k1];
        RecordWhole(rs[0], Body(rs[1..])[..k1]);
        BodyCut(rs[1..], k1);
      }
    }
  }

  const MAGIC: seq<Byte> := [109, 101, 109, 115, 116, 97, 115, 104]
  const VERSION: Byte := 1
  const HEADER_SIZE: nat := 17
  const I64: int := 0x8000_0000_0000_0000

  function Power256(k: nat): nat { if k == 0 then 1 else 256 * Power256(k - 1) }

  /** The low `k` bytes of `x`, most significant first. */
  function BigEndian(x: nat, k: nat): (r: seq<Byte>)
    ensures |r| == k
  {
    if k == 0 then [] else BigEndian(x / 256, k - 1) + [x % 256]
  }

  function FromBigEndian(bs: seq<Byte>): nat {
    if bs == [] then 0 else FromBigEndian(bs[..|bs| - 1]) * 256 + bs[|bs| - 1]
  }

  lemma {:induction false} BigEndianBack(x: nat, k: nat)
    requires x < Power256(k)
    ensures FromBigEndian(BigEndian(x, k)) == x
  {
    if k > 0 {
      BigEndianBack(x / 256, k - 1);
      assert BigEndian(x, k)[..k - 1] == BigEndian(x / 256, k - 1);
    }
  }

  /** The unsigned word a signed time is stored as, and back. */
  function ToWord(t: int): (w: nat)
    requires -I64 <= t < I64
    ensures w < U64
  {
    if t < 0 then t + U64 else t
  }

  function FromWord(w: nat): int { if w < I64 then w else w - U64 }

  lemma EightBytes()
    ensures Power256(8) == U64
  {
    assert Power256(1) == 256 && Power256(2) == 256 * Power256(1) && Power256(3) == 256 * Power256(2);
    assert Power256(4) == 256 * Power256(3) && Power256(5) == 256 * Power256(4) && Power256(6) == 256 * Power256(5);
    assert Power256(7) == 256 * Power256(6);
  }

  function Header(savedAt: int): (h: seq<Byte>)
    requires -I64 <= savedAt < I64
    ensures |h| == HEADER_SIZE
  {
    MAGIC + [VERSION] + BigEndian(ToWord(savedAt), 8)
  }

  function ReadHeader(bs: seq<Byte>): Read<int> {
    if |bs| < HEADER_SIZE || bs[..8] != MAGIC || bs[8] != VERSION then Failed
    else Got(FromWord(FromBigEndian(bs[9..HEADER_SIZE])), bs[HEADER_SIZE..])
  }

  lemma HeaderBack(savedAt: int, rest: seq<Byte>)
    requires -I64 <= savedAt < I64
    ensures ReadHeader(Header(savedAt) + rest) == Got(savedAt, rest)
  {
    var w := ToWord(savedAt);
    EightBytes();
    BigEndianBack(w, 8);
    var bs := Header(savedAt) + rest;
    assert bs[..8] == MAGIC && bs[9..HEADER_SIZE] == BigEndian(w, 8) && bs[HEADER_SIZE..] == rest;
  }

  /** A complete snapshot. */
  function Stream(savedAt: int, rs: seq<Record>): seq<Byte>
    requires -I64 <= savedAt < I64
  {
    Header(savedAt) + Body(rs)
  }

  datatype Outcome = Refused | Outcome(savedAt: int, records: seq<Record>, complete: bool)

  /** What a load reads from a stream. */
  function Parse(bs: seq<Byte>): Outcome {
    match ReadHeader(bs)
    case Failed => Refused
    case Got(savedAt, rest) => var r := Records(rest); Outcome(savedAt, r.0, r.1)
  }

  lemma StreamIs(savedAt: int, rs: seq<Record>, rest: seq<Byte>)
    requires -I64 <= savedAt < I64
    ensures Stream(savedAt, rs) + rest == Header(savedAt) + (Body(rs) + rest)
    ensures |Stream(savedAt, rs)| == HEADER_SIZE + |Body(rs)|
    ensures forall k: nat | HEADER_SIZE <= k < |Stream(savedAt, rs)| ::
              Stream(savedAt, rs)[..k] == Header(savedAt) + Body(rs)[..k - HEADER_SIZE]
  {
    hide Header, Body;
  }

  lemma ParseIs(bs: seq<Byte>)
    ensures |bs| < HEADER_SIZE ==> Parse(bs) == Refused
    ensures ReadHeader(bs).Got? ==>
              var r := Records(ReadHeader(bs).rest);
              Parse(bs) == Outcome(ReadHeader(bs).value, r.0, r.1)
  {
    hide Records;
  }

  /** Whatever follows the end marker, a saved stream gives back its time and its records up to the first oversized one;
      it loads completely if and only if every key and value is within the chunk limit. */
  lemma RoundTrip(savedAt: int, rs: seq<Record>, rest: seq<Byte>)
    requires -I64 <= savedAt < I64 && AllMachine(rs)
    ensures Parse(Stream(savedAt, rs) + rest) == Outcome(savedAt, rs[..Accepted(rs)], Accepted(rs) == |rs|)
    ensures Parse(Stream(savedAt, rs) + rest) == Outcome(savedAt, rs, true) <==> forall i | 0 <= i < |rs| :: Fits(rs[i])
  {
    hide *;
    StreamIs(savedAt, rs, rest);
    HeaderBack(savedAt, Body(rs) + rest);
    ParseIs(Stream(savedAt, rs) + rest);
    BodyWhole(rs, rest);
    assert Accepted(rs) == |rs| ==> rs[..Accepted(rs)] == rs;
  }

  /** The saver does not enforce the chunk limit: it writes a value that no load accepts. */
  lemma OversizedIsSavedButNotLoaded()
    ensures var r := Record([], seq(MAX_CHUNK + 1, _ => 0), 0);
            Machine(r) && Parse(Stream(0, [r])) == Outcome(0, [], false)
  {
    var r := Record([], seq(MAX_CHUNK + 1, _ => 0), 0);
    RoundTrip(0, [r], []);
    assert Stream(0, [r]) + [] == Stream(0, [r]);
    assert [r][0] == r && !Fits(r);
    assert [r][..0] == [];
  }

  /** Every strict prefix of a snapshot is rejected: within the header nothing is read, after it exactly the records
      that are whole in the prefix are, and the end marker is never found. */
  lemma Truncated(savedAt: int, rs: seq<Record>, k: nat)
    requires -I64 <= savedAt < I64 && AllMachine(rs) && (forall i | 0 <= i < |rs| :: Fits(rs[i]))
    requires k < |Stream(savedAt, rs)|
    ensures Parse(Stream(savedAt, rs)[..k])
         == if k < HEADER_SIZE then Refused else Outcome(savedAt, rs[..WholeIn(rs, k - HEADER_SIZE)], false)
  {
    hide *;
    StreamIs(savedAt, rs, []);
    ParseIs(Stream(savedAt, rs)[..k]);
    if k >= HEADER_SIZE {
      HeaderBack(savedAt, Body(rs)[..k - HEADER_SIZE]);
      BodyCut(rs, k - HEADER_SIZE);
    }
  }

  const SECOND: int := 1_000_000_000

  /** The lifetime word: zero for none, else one more than the seconds left, rounded up. */
  function LifeWord(life: int): nat { if life > 0 then (life + SECOND - 1) / SECOND + 1 else 0 }

  /** The moment a load with the original TTL lets the item expire. */
  function RestoredDeadline(savedAt: int, word: nat): int
    requires word > 0
  {
    savedAt + (word - 1) * SECOND
  }

  /** The moment a stream carries for an item is its own or less than a second later. */
  lemma DeadlineKept(savedAt: int, life: int)
    requires life > 0
    ensures LifeWord(life) > 0
    ensures savedAt + life <= RestoredDeadline(savedAt, LifeWord(life)) < savedAt + life + SECOND
  {
    var q := (life + SECOND - 1) / SECOND;
    assert q * SECOND <= life + SECOND - 1 < (q + 1) * SECOND;
  }
}
