/** The injected clock, randomness and offset every new record is minted from. */
module Kernels {
  import opened Wrappers
  import opened Ordering
  import opened Utf8
  import opened Ids
  import opened Datetimes

  datatype AppError = InvalidOffset(minutes: int) | Id(id: IdError) | Clock(clock: DatetimeError)

  /** The ten bytes a source hands out after `drawn` earlier ones. */
  function Draw(entropy: nat -> Byte, drawn: nat): (b: Bytes)
    ensures |b| == 10 && forall i :: 0 <= i < 10 ==> b[i] == entropy(drawn + i)
  {
    seq(10, i requires 0 <= i < 10 => entropy(drawn + i))
  }

  /** Mints identifiers from a randomness source that never hands out a byte twice. */
  class RecordIdGenerator {
    const entropy: nat -> Byte
    var drawn: nat

    constructor (entropy: nat -> Byte)
      ensures this.entropy == entropy && drawn == 0
    {
      this.entropy := entropy;
      drawn := 0;
    }

    method GenerateUuid(now: nat) returns (r: Result<Uuid7, IdError>)
      modifies this
      ensures r == FromParts(now, Draw(entropy, old(drawn)))
      ensures drawn == old(drawn) + 10
    {
      var random := Draw(entropy, drawn);
      drawn := drawn + 10;
      r := FromParts(now, random);
    }

    method Generate(kind: RecordKind, now: nat) returns (r: Result<RecordId, IdError>)
      modifies this
      ensures r == match FromParts(now, Draw(entropy, old(drawn)))
                   case Ok(u) => Ok(RecordId(kind, u))
                   case Err(e) => Err(e)
      ensures drawn == old(drawn) + 10
    {
      var u := GenerateUuid(now);
      match u
      case Ok(uuid) => r := Ok(RecordId(kind, uuid));
      case Err(e) => r := Err(e);
    }
  }

  class Kernel {
    const ids: RecordIdGenerator
    const offsetMinutes: int

    constructor (ids: RecordIdGenerator, offsetMinutes: int)
      requires -MAX_OFFSET <= offsetMinutes <= MAX_OFFSET
      ensures this.ids == ids && this.offsetMinutes == offsetMinutes
    {
      this.ids := ids;
      this.offsetMinutes := offsetMinutes;
    }

    /** Refuses exactly the offsets no datetime can be rendered in. */
    static method New(entropy: nat -> Byte, offsetMinutes: int) returns (r: Result<Kernel, AppError>)
      ensures r.Ok? <==> -MAX_OFFSET <= offsetMinutes <= MAX_OFFSET
      ensures r.Err? ==> r.error == InvalidOffset(offsetMinutes)
      ensures r.Ok? ==> fresh(r.value) && fresh(r.value.ids) && r.value.ids.drawn == 0
                        && r.value.offsetMinutes == offsetMinutes && r.value.ids.entropy == entropy
    {
      if !(-MAX_OFFSET <= offsetMinutes <= MAX_OFFSET) { return Err(InvalidOffset(offsetMinutes)); }
      var ids := new RecordIdGenerator(entropy);
      var k := new Kernel(ids, offsetMinutes);
      r := Ok(k);
    }

    /**
     * One clock reading names both the identifier and the datetime: a clock the 48-bit
     * field can hold always succeeds, and both halves carry exactly its millisecond.
     */
    method NewRecord(kind: RecordKind, now: nat) returns (r: Result<(RecordId, Datetime), AppError>)
      requires -MAX_OFFSET <= offsetMinutes <= MAX_OFFSET
      modifies ids
      ensures ids.drawn == old(ids.drawn) + 10
      ensures r.Ok? <==> now < MILLIS_LIMIT
      ensures r.Err? ==> r.error == Id(TimestampOutOfRange)
      ensures r.Ok? ==>
                var (id, at) := r.value;
                id.kind == kind && FromParts(now, Draw(ids.entropy, old(ids.drawn))) == Ok(id.uuid)
                && ValidUuid(id.uuid) && UuidMillis(id.uuid) == now
                && Valid(at) && at.offsetMinutes == offsetMinutes && UnixMillis(at) == now
    {
      hide FromUnixMillis, FromParts, UuidMillis, UnixMillis, Valid;
      FromPartsExact(now, Draw(ids.entropy, ids.drawn));
      OutOfRangeClock(now, Draw(ids.entropy, ids.drawn));
      var id := ids.Generate(kind, now);
      if id.Err? { return Err(Id(id.error)); }
      var millis := UuidMillis(id.value.uuid);
      ClockFits(millis, offsetMinutes);
      FromUnixMillisExact(millis, offsetMinutes);
      var at := FromUnixMillis(millis, offsetMinutes);
      if at.Err? { return Err(Clock(at.error)); }
      r := Ok((id.value, at.value));
    }
  }

  lemma OutOfRangeClock(now: nat, random: Bytes)
    requires |random| == 10
    ensures now >= MILLIS_LIMIT ==> FromParts(now, random) == Err(TimestampOutOfRange)
  {
  }

  /** Every 48-bit millisecond falls in a year that 16 bits can hold, in any legal offset. */
  lemma ClockFits(now: nat, offsetMinutes: int)
    requires now < MILLIS_LIMIT && -MAX_OFFSET <= offsetMinutes <= MAX_OFFSET
    ensures FirstDay() <= (now + offsetMinutes * 60_000) / 1000 / DAY_SECONDS <= LastDay()
  {
    RepresentableRange();
  }

  /** Identifiers of one kind sort as text by creation millisecond. */
  lemma EarlierRecordSortsFirst(kind: RecordKind, m: nat, rm: Bytes, n: nat, rn: Bytes)
    requires |rm| == 10 && |rn| == 10 && m < n < MILLIS_LIMIT
    ensures FromParts(m, rm).Ok? && FromParts(n, rn).Ok?
    ensures |FromParts(m, rm).value.bytes| == 16 && |FromParts(n, rn).value.bytes| == 16
    ensures Less(RecordText(RecordId(kind, FromParts(m, rm).value)), RecordText(RecordId(kind, FromParts(n, rn).value)))
  {
    EarlierMillisSmallerText(m, rm, n, rn);
    var a, b := UuidText(FromParts(m, rm).value.bytes), UuidText(FromParts(n, rn).value.bytes);
    LessConcat(Prefix(kind), a, Prefix(kind), b);
  }
}
