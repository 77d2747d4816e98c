/** The track-record decoder of src/gt120b_datadump.rs. A data block is a sequence of
    128-byte groups, each an 8-byte header followed by four 30-byte records; a record
    is classified by its first byte and, when it is a fix, decoded into a bit-packed
    UTC time stamp and raw integer fields. */
module Records {
  import opened Common

  const HEADER_LEN: nat := 8
  const RECORD_LEN: nat := 30
  const RECORDS_PER_GROUP: nat := 4
  const GROUP_LEN: nat := 128

  /** The (year, month, day, hour, minute, second, millisecond) tuple handed to
      chrono's `ymd_opt(..).and_hms_milli_opt(..)`. */
  datatype DateTime = DateTime(year: nat, month: nat, day: nat, hour: nat, minute: nat,
                               second: nat, milli: nat)

  predicate IsLeapYear(y: nat)
  {
    (y % 4 == 0 && y % 100 != 0) || y % 400 == 0
  }

  function DaysInMonth(y: nat, m: nat): nat
    requires 1 <= m <= 12
  {
    if m == 2 then (if IsLeapYear(y) then 29 else 28)
    else if m == 4 || m == 6 || m == 9 || m == 11 then 30
    else 31
  }

  /** When both chrono constructors return a value and the two `unwrap`s pass: a
      real proleptic-Gregorian date and a time of day with fewer than 1000
      milliseconds (every millisecond count here is below 1000). */
  predicate ValidDateTime(t: DateTime)
  {
    1 <= t.month <= 12 && 1 <= t.day <= DaysInMonth(t.year, t.month) &&
    t.hour < 24 && t.minute < 60 && t.second < 60 && t.milli < 1000
  }

  /** A decoded fix. The source divides the unit fields by 100, 10 and 10^7 into
      `f32`s; the model keeps the integers. */
  datatype Fix = Fix(satUsed: nat, satVisib: nat, time: DateTime, course: nat, speed: nat,
                     hdop: nat, ele: nat, lat: nat, lon: nat)

  /** The time stamp of a record: the big-endian u32 of bytes 2..6 holds the minute in
      bits 0-5, the hour in bits 6-10, the day in bits 11-15 and the month in bits
      16-19; the year is byte 2 + 2000; the little-endian u16 of bytes 6..8 counts
      milliseconds within the minute. Right shifts and masks on unsigned values are
      division and remainder by powers of two. */
  function RecordTime(value: seq<byte>): DateTime
    requires |value| == RECORD_LEN
  {
    var ymd := BeValue(value[2..6]);
    var secs := LeValue(value[6..8]);
    DateTime(value[2] as int + 2000, (ymd / 0x1_0000) % 16, (ymd / 0x800) % 32, (ymd / 64) % 32,
             ymd % 64, secs / 1000, secs % 1000)
  }

  /** The same fields read off the individual bytes: the month is the low nibble of
      byte 3, the day the top five bits of byte 4, the hour the low three bits of
      byte 4 followed by the top two bits of byte 5, the minute the low six bits of
      byte 5. */
  lemma RecordTimeBytes(value: seq<byte>)
    requires |value| == RECORD_LEN
    ensures var t := RecordTime(value);
      && t.year == 2000 + value[2] as int
      && t.month == value[3] % 16
      && t.day == value[4] / 8
      && t.hour == 4 * (value[4] % 8) + value[5] / 64
      && t.minute == value[5] % 64
      && t.second == (value[6] + 256 * (value[7] as int)) / 1000
      && t.milli == (value[6] + 256 * (value[7] as int)) % 1000
  {
    var b2: int, b3: int, b4: int, b5: int := value[2], value[3], value[4], value[5];
    var ymd := BeValue(value[2..6]);
    BeValue4(value[2..6]);
    LeValue2(value[6..8]);
    assert ymd == 16777216 * b2 + 65536 * b3 + 256 * b4 + b5;
    DivModUnique(ymd, 64, 262144 * b2 + 1024 * b3 + 4 * b4 + b5 / 64, b5 % 64);
    var q6 := 262144 * b2 + 1024 * b3 + 4 * b4 + b5 / 64;
    DivModUnique(q6, 32, 8192 * b2 + 32 * b3 + b4 / 8, 4 * (b4 % 8) + b5 / 64);
    DivModUnique(ymd, 0x800, 8192 * b2 + 32 * b3 + b4 / 8, 256 * (b4 % 8) + b5);
    var q11 := 8192 * b2 + 32 * b3 + b4 / 8;
    DivModUnique(q11, 32, 256 * b2 + b3, b4 / 8);
    DivModUnique(ymd, 0x1_0000, 256 * b2 + b3, 256 * b4 + b5);
    DivModUnique(256 * b2 + b3, 16, 16 * b2 + b3 / 16, b3 % 16);
  }

  /** The six time-stamp bytes (2..8 of a record) that encode `t`; byte 3's high
      nibble, which the decoder ignores, is written as zero. */
  function StampBytes(t: DateTime): seq<byte>
    requires 2000 <= t.year < 2256 && t.month < 16 && t.day < 32 && t.hour < 32 && t.minute < 64
    requires t.milli < 1000 && t.second * 1000 + t.milli < U16_LIMIT
  {
    var ms := t.second * 1000 + t.milli;
    [t.year - 2000, t.month, 8 * t.day + t.hour / 4, 64 * (t.hour % 4) + t.minute, ms % 256, ms / 256]
  }

  /** Decoding undoes encoding: a record carrying `StampBytes(t)` at bytes 2..8
      decodes to `t`. */
  lemma StampRoundTrip(value: seq<byte>, t: DateTime)
    requires 2000 <= t.year < 2256 && t.month < 16 && t.day < 32 && t.hour < 32 && t.minute < 64
    requires t.milli < 1000 && t.second * 1000 + t.milli < U16_LIMIT
    requires |value| == RECORD_LEN && value[2..8] == StampBytes(t)
    ensures RecordTime(value) == t
  {
    RecordTimeBytes(value);
    var ms := t.second * 1000 + t.milli;
    assert value[6] + 256 * (value[7] as int) == ms;
    DivModUnique(ms, 1000, t.second, t.milli);
    DivModUnique(8 * t.day + t.hour / 4, 8, t.day, t.hour / 4);
    DivModUnique(64 * (t.hour % 4) + t.minute, 64, t.hour % 4, t.minute);
  }

  /** First bytes that `dumpblock_parse_one` reports and skips: empty flash, a
      record without coordinates, a new track, a button press and a switch-off. */
  predicate IsSkippedTag(tag: byte)
  {
    tag == 0xFF || tag == 0x50 || tag == 0x41 || tag == 0x43 || tag == 0x42
  }

  /** The fix of a record, whatever its first byte; an impossible date or time makes
      chrono's `unwrap` panic. */
  function DecodeFix(value: seq<byte>): (r: Result<Fix>)
    requires |value| == RECORD_LEN
    ensures r.Ok? <==> ValidDateTime(RecordTime(value))
    ensures r.Err? ==> r.error == InvalidTimestamp
  {
    var time := RecordTime(value);
    if !ValidDateTime(time) then Err(InvalidTimestamp)
    else
      Ok(Fix(value[1] % 16, value[1] / 16, time,
             LeValue(value[28..30]), LeValue(value[26..28]), value[8],
             LeValue(value[22..24]), LeValue(value[14..18]), LeValue(value[18..22])))
  }

  /** The tag byte plays no part in decoding a fix. */
  lemma DecodeFixIgnoresTag(a: seq<byte>, b: seq<byte>)
    requires |a| == RECORD_LEN && |b| == RECORD_LEN && a[1..] == b[1..]
    ensures DecodeFix(a) == DecodeFix(b)
  {
    assert forall i :: 1 <= i < RECORD_LEN ==> a[i] == a[1..][i - 1];
    assert forall i :: 1 <= i < RECORD_LEN ==> a[i] == b[i];
    assert a[2..6] == b[2..6] && a[6..8] == b[6..8];
    assert a[28..30] == b[28..30] && a[26..28] == b[26..28] && a[22..24] == b[22..24];
    assert a[14..18] == b[14..18] && a[18..22] == b[18..22];
  }

  /** The satellite nibbles are the two halves of byte 1, and the integer fields are
      unsigned 16- and 32-bit values. */
  lemma DecodeFixFields(value: seq<byte>)
    requires |value| == RECORD_LEN && DecodeFix(value).Ok?
    ensures var f := DecodeFix(value).value;
      && f.satUsed < 16 && f.satVisib < 16 && f.satUsed + 16 * f.satVisib == value[1]
      && f.course < U16_LIMIT && f.speed < U16_LIMIT && f.ele < U16_LIMIT && f.hdop < 256
      && f.lat < U32_LIMIT && f.lon < U32_LIMIT
      && f.time == RecordTime(value)
  {
    LeValueBound(value[28..30]);
    LeValueBound(value[26..28]);
    LeValueBound(value[22..24]);
    LeValueBound(value[14..18]);
    LeValueBound(value[18..22]);
    assert Pow256(2) == U16_LIMIT;
    assert Pow256(4) == U32_LIMIT;
  }

  /** `dumpblock_parse_one`: no point for a skipped tag, otherwise the decoded fix. */
  function ParseOne(value: seq<byte>): (r: Result<Option<Fix>>)
    requires |value| == RECORD_LEN
    ensures r == Ok(None) <==> IsSkippedTag(value[0])
    ensures !IsSkippedTag(value[0]) ==> (r.Ok? <==> ValidDateTime(RecordTime(value)))
    ensures r.Ok? && r.value.Some? ==> Ok(r.value.value) == DecodeFix(value)
    ensures r.Err? ==> r.error == InvalidTimestamp
  {
    if IsSkippedTag(value[0]) then Ok(None)
    else
      var fix :- DecodeFix(value);
      Ok(Some(fix))
  }

  /** The offsets of the records of the first `k` groups of a block, in visiting
      order: for group g, `128g + 8 + 30j` for j = 0..3. */
  function RecordOffsets(k: nat): (offs: seq<nat>)
    ensures |offs| == RECORDS_PER_GROUP * k
    ensures Fit(GROUP_LEN * k, offs)
  {
    if k == 0 then []
    else
      var g := GROUP_LEN * (k - 1);
      RecordOffsets(k - 1) + [g + 8, g + 38, g + 68, g + 98]
  }

  /** Every record at `offs` lies inside a block of `n` bytes. */
  predicate Fit(n: nat, offs: seq<nat>)
  {
    forall i :: 0 <= i < |offs| ==> offs[i] + RECORD_LEN <= n
  }

  /** Entry 4g + j of the visiting order is record j of group g. */
  lemma {:induction false} OffsetAt(k: nat, g: nat, j: nat)
    requires g < k && j < RECORDS_PER_GROUP
    ensures RecordOffsets(k)[4 * g + j] == GROUP_LEN * g + HEADER_LEN + RECORD_LEN * j
  {
    if g < k - 1 {
      OffsetAt(k - 1, g, j);
      assert RecordOffsets(k)[..4 * (k - 1)] == RecordOffsets(k - 1);
    }
  }

  /** The same in closed form: entry i is record i % 4 of group i / 4. */
  lemma RecordOffsetsShape(k: nat)
    ensures forall i :: 0 <= i < |RecordOffsets(k)| ==>
              RecordOffsets(k)[i] == GROUP_LEN * (i / 4) + HEADER_LEN + RECORD_LEN * (i % 4)
  {
    forall i | 0 <= i < |RecordOffsets(k)|
      ensures RecordOffsets(k)[i] == GROUP_LEN * (i / 4) + HEADER_LEN + RECORD_LEN * (i % 4)
    {
      DivModUnique(i, 4, i / 4, i % 4);
      OffsetAt(k, i / 4, i % 4);
    }
  }

  /** The offsets of fewer groups begin those of more groups. */
  lemma {:induction false} RecordOffsetsPrefix(m: nat, k: nat)
    requires m <= k
    ensures StartsWith(RecordOffsets(k), RecordOffsets(m))
  {
    if m < k {
      RecordOffsetsPrefix(m, k - 1);
      assert RecordOffsets(k)[..4 * (k - 1)] == RecordOffsets(k - 1);
      assert RecordOffsets(k)[..4 * m] == RecordOffsets(k - 1)[..4 * m];
    }
  }

  /** The fixes of the records at `offs`, in order; the first record whose date does
      not decode aborts the whole block. */
  function DecodeRecords(data: seq<byte>, offs: seq<nat>): Result<seq<Fix>>
    requires Fit(|data|, offs)
  {
    if offs == [] then Ok([])
    else
      var last := offs[|offs| - 1];
      var prev :- DecodeRecords(data, offs[..|offs| - 1]);
      var p :- ParseOne(data[last..last + RECORD_LEN]);
      Ok(prev + PointOf(p))
  }

  /** The point a record contributes: none for a skipped tag. */
  function PointOf(p: Option<Fix>): seq<Fix>
  {
    if p.Some? then [p.value] else []
  }

  /** Once a failure occurs, visiting more records keeps the same failure: the
      earliest bad record decides the error. */
  lemma {:induction false} DecodeRecordsErrPersists(data: seq<byte>, offs: seq<nat>, k: nat)
    requires Fit(|data|, offs)
    requires k <= |offs| && DecodeRecords(data, offs[..k]).Err?
    ensures DecodeRecords(data, offs) == DecodeRecords(data, offs[..k])
  {
    if k < |offs| {
      assert offs[..|offs| - 1][..k] == offs[..k];
      DecodeRecordsErrPersists(data, offs[..|offs| - 1], k);
    } else {
      assert offs[..k] == offs;
    }
  }

  /** Decoding one more record: the earlier error if there was one, otherwise this
      record's error or its point appended. */
  lemma DecodeRecordsSnoc(data: seq<byte>, offs: seq<nat>, o: nat, p: Result<Option<Fix>>)
    requires Fit(|data|, offs)
    requires o + RECORD_LEN <= |data| && Fit(|data|, offs + [o])
    requires p == ParseOne(data[o..o + RECORD_LEN])
    ensures var d := DecodeRecords(data, offs + [o]);
            && (DecodeRecords(data, offs).Err? ==> d == DecodeRecords(data, offs))
            && (DecodeRecords(data, offs).Ok? && p.Err? ==> d == Err(p.error))
            && (DecodeRecords(data, offs).Ok? && p.Ok? ==>
                  d == Ok(DecodeRecords(data, offs).value + PointOf(p.value)))
  {
    assert (offs + [o])[..|offs|] == offs;
  }

  /** The record loop so far, in a block of `total` groups: the visited offsets begin
      the visiting order and the fixes are what they decode to. */
  predicate LoopState(data: seq<byte>, total: nat, visited: seq<nat>, fixes: seq<Fix>)
  {
    |data| == GROUP_LEN * total && StartsWith(RecordOffsets(total), visited) &&
    Fit(|data|, visited) && DecodeRecords(data, visited) == Ok(fixes)
  }

  /** The record loop stopped at the last visited offset with error `e`: every
      record before it decoded. */
  predicate Stopped(data: seq<byte>, total: nat, visited: seq<nat>, e: Error)
  {
    |data| == GROUP_LEN * total && 0 < |visited| && StartsWith(RecordOffsets(total), visited) &&
    Fit(|data|, visited) && DecodeRecords(data, visited[..|visited| - 1]).Ok? &&
    DecodeRecords(data, visited) == Err(e)
  }

  /** A loop that stopped with error `e` has found the block's result. */
  lemma StoppedDecides(data: seq<byte>, total: nat, visited: seq<nat>, e: Error)
    requires Stopped(data, total, visited, e)
    ensures DecodeRecords(data, RecordOffsets(total)) == Err(e)
  {
    DecodeRecordsErrPersists(data, RecordOffsets(total), |visited|);
  }

  /** A loop that visited all 4·total records has decoded the whole block. */
  lemma LoopDone(data: seq<byte>, total: nat, visited: seq<nat>, fixes: seq<Fix>)
    requires |visited| == 4 * total && LoopState(data, total, visited, fixes)
    ensures visited == RecordOffsets(total) && DecodeRecords(data, RecordOffsets(total)) == Ok(fixes)
  {
  }

  /** One step of the record loop: visiting record j of group g either keeps the loop
      state, with that record's point appended, or stops the loop with the record's
      error. */
  lemma LoopStep(data: seq<byte>, total: nat, g: nat, j: nat, visited: seq<nat>, fixes: seq<Fix>)
    requires g < total && j < RECORDS_PER_GROUP
    requires |visited| == 4 * g + j && LoopState(data, total, visited, fixes)
    ensures GROUP_LEN * g + HEADER_LEN + RECORD_LEN * j + RECORD_LEN <= |data|
    ensures var o := GROUP_LEN * g + HEADER_LEN + RECORD_LEN * j;
            var p := ParseOne(data[o..o + RECORD_LEN]);
            && (p.Ok? ==> LoopState(data, total, visited + [o], fixes + PointOf(p.value)))
            && (p.Err? ==> Stopped(data, total, visited + [o], p.error))
  {
    var o := GROUP_LEN * g + HEADER_LEN + RECORD_LEN * j;
    RecordInBlock(total, g, j);
    OffsetAt(total, g, j);
    StartsWithSnoc(RecordOffsets(total), visited);
    FitSnoc(|data|, visited, o);
    DecodeRecordsSnoc(data, visited, o, ParseOne(data[o..o + RECORD_LEN]));
    assert (visited + [o])[..|visited|] == visited;
  }

  /** Record j of group g lies inside a block of `total` groups. */
  lemma RecordInBlock(total: nat, g: nat, j: nat)
    requires g < total && j < RECORDS_PER_GROUP
    ensures GROUP_LEN * g + HEADER_LEN + RECORD_LEN * j + RECORD_LEN <= GROUP_LEN * total
  {
    assert GROUP_LEN * g + GROUP_LEN <= GROUP_LEN * total;
  }

  /** A prefix followed by the next element is a longer prefix. */
  lemma StartsWithSnoc<T>(all: seq<T>, visited: seq<T>)
    requires StartsWith(all, visited) && |visited| < |all|
    ensures StartsWith(all, visited + [all[|visited|]])
  {
    assert all[..|visited| + 1] == all[..|visited|] + [all[|visited|]];
  }

  /** One more record inside the data keeps every record inside it. */
  lemma FitSnoc(n: nat, visited: seq<nat>, o: nat)
    requires Fit(n, visited) && o + RECORD_LEN <= n
    ensures Fit(n, visited + [o])
  {
    forall i | 0 <= i < |visited| + 1
      ensures (visited + [o])[i] + RECORD_LEN <= n
    {
      if i < |visited| { assert (visited + [o])[i] == visited[i]; }
    }
  }

  /** The last visited record lies in the group starting at byte `start`. */
  predicate LastInGroup(visited: seq<nat>, start: nat)
  {
    0 < |visited| && start + HEADER_LEN <= visited[|visited| - 1] < start + GROUP_LEN
  }

  /** The inner `for` loop of `dumpblock_parse` and `dumpblock_hex`: the four records
      of group g, which starts at byte `groupStart`. */
  method ParseGroup(data: seq<byte>, ghost total: nat, ghost g: nat, groupStart: nat,
                    visited0: seq<nat>, fixes0: seq<Fix>)
    returns (visited: seq<nat>, fixes: seq<Fix>, r: Result<()>)
    requires g < total && groupStart == GROUP_LEN * g
    requires |visited0| == 4 * g && LoopState(data, total, visited0, fixes0)
    ensures r.Ok? ==> |visited| == |visited0| + RECORDS_PER_GROUP && LoopState(data, total, visited, fixes)
    ensures r.Err? ==> Stopped(data, total, visited, r.error)
    ensures r.Err? ==> LastInGroup(visited, groupStart)
  {
    visited, fixes := visited0, fixes0;
    var pos := groupStart + HEADER_LEN;
    for n := 0 to RECORDS_PER_GROUP
      invariant pos == groupStart + HEADER_LEN + RECORD_LEN * n
      invariant |visited| == |visited0| + n && LoopState(data, total, visited, fixes)
    {
      LoopStep(data, total, g, n, visited, fixes);
      var p := ParseOne(data[pos..pos + RECORD_LEN]);
      visited := visited + [pos];
      if p.Err? {
        return visited, fixes, Err(p.error);
      }
      ghost var before := fixes;
      if p.value.Some? {
        fixes := fixes + [p.value.value];
      }
      assert fixes == before + PointOf(p.value);
      pos := pos + RECORD_LEN;
    }
    r := Ok(());
  }

  /** `dumpblock_parse`: the record loop over a block whose length is a multiple of
      128. Returns the record offsets visited and the decoded fixes; the loop stops at
      the first undecodable record, as the panic does. */
  method DumpblockParse(data: seq<byte>) returns (visited: seq<nat>, r: Result<seq<Fix>>)
    requires |data| % GROUP_LEN == 0
    ensures r == DecodeRecords(data, RecordOffsets(|data| / GROUP_LEN))
    ensures r.Ok? ==> visited == RecordOffsets(|data| / GROUP_LEN)
    ensures r.Err? ==> Stopped(data, |data| / GROUP_LEN, visited, r.error)
  {
    ghost var total := |data| / GROUP_LEN;
    ghost var g := 0;
    var fixes: seq<Fix> := [];
    visited := [];
    var pos := 0;
    while pos < |data|
      invariant pos == GROUP_LEN * g && g <= total
      invariant |visited| == 4 * g && LoopState(data, total, visited, fixes)
      decreases |data| - pos
    {
      var groupResult: Result<()>;
      visited, fixes, groupResult := ParseGroup(data, total, g, pos, visited, fixes);
      if groupResult.Err? {
        StoppedDecides(data, total, visited, groupResult.error);
        r := Err(groupResult.error);
        return;
      }
      pos := pos + GROUP_LEN;
      g := g + 1;
    }
    LoopDone(data, total, visited, fixes);
    r := Ok(fixes);
  }

  /** The offsets of the headers of the first `k` groups of a block. */
  function HeaderOffsets(k: nat): (offs: seq<nat>)
    ensures |offs| == k
  {
    if k == 0 then [] else HeaderOffsets(k - 1) + [GROUP_LEN * (k - 1)]
  }

  /** Header g sits at byte 128g. */
  lemma {:induction false} HeaderOffsetsAt(k: nat)
    ensures forall g :: 0 <= g < k ==> HeaderOffsets(k)[g] == GROUP_LEN * g
  {
    if k > 0 {
      HeaderOffsetsAt(k - 1);
      assert HeaderOffsets(k)[..k - 1] == HeaderOffsets(k - 1);
    }
  }

  /** The headers of fewer groups begin those of more groups. */
  lemma {:induction false} HeaderOffsetsPrefix(m: nat, k: nat)
    requires m <= k
    ensures StartsWith(HeaderOffsets(k), HeaderOffsets(m))
  {
    if m < k {
      HeaderOffsetsPrefix(m, k - 1);
      assert HeaderOffsets(k)[..k - 1] == HeaderOffsets(k - 1);
      assert HeaderOffsets(k)[..m] == HeaderOffsets(k - 1)[..m];
    }
  }

  /** The last visited record lies in the group of the last printed header. */
  predicate InLastGroup(headers: seq<nat>, visited: seq<nat>)
  {
    0 < |headers| && LastInGroup(visited, headers[|headers| - 1])
  }

  /** What `dumpblock_hex` has printed when group g stops the loop. */
  lemma HexStopped(data: seq<byte>, total: nat, g: nat, headers: seq<nat>, visited: seq<nat>, e: Error)
    requires g < total && headers == HeaderOffsets(g) + [GROUP_LEN * g]
    requires Stopped(data, total, visited, e)
    requires LastInGroup(visited, GROUP_LEN * g)
    ensures DecodeRecords(data, RecordOffsets(total)) == Err(e)
    ensures StartsWith(HeaderOffsets(total), headers)
    ensures InLastGroup(headers, visited)
  {
    HeaderOffsetsPrefix(g + 1, total);
    StoppedDecides(data, total, visited, e);
  }

  /** `dumpblock_hex`: the record loop of `dumpblock_parse` with every header and
      every record printed first. Returns the offsets of the printed headers (the
      record slices printed are those at `visited`): all of them when every record
      decodes, otherwise up to the header of the group holding the failing record. */
  method DumpblockHex(data: seq<byte>) returns (headers: seq<nat>, visited: seq<nat>, r: Result<seq<Fix>>)
    requires |data| % GROUP_LEN == 0
    ensures r == DecodeRecords(data, RecordOffsets(|data| / GROUP_LEN))
    ensures r.Ok? ==> visited == RecordOffsets(|data| / GROUP_LEN) && headers == HeaderOffsets(|data| / GROUP_LEN)
    ensures r.Err? ==> Stopped(data, |data| / GROUP_LEN, visited, r.error)
    ensures r.Err? ==> StartsWith(HeaderOffsets(|data| / GROUP_LEN), headers)
    ensures r.Err? ==> InLastGroup(headers, visited)
  {
    ghost var total := |data| / GROUP_LEN;
    ghost var g := 0;
    var fixes: seq<Fix> := [];
    visited := [];
    headers := [];
    var pos := 0;
    while pos < |data|
      invariant pos == GROUP_LEN * g && g <= total
      invariant |visited| == 4 * g && LoopState(data, total, visited, fixes)
      invariant headers == HeaderOffsets(g)
      decreases |data| - pos
    {
      headers := headers + [pos];
      var groupResult: Result<()>;
      visited, fixes, groupResult := ParseGroup(data, total, g, pos, visited, fixes);
      if groupResult.Err? {
        HexStopped(data, total, g, headers, visited, groupResult.error);
        r := Err(groupResult.error);
        return;
      }
      pos := pos + GROUP_LEN;
      g := g + 1;
    }
    LoopDone(data, total, visited, fixes);
    r := Ok(fixes);
  }

  /** The records of a whole block, in visiting order, if its length is a
      multiple of 128. */
  function DecodeBlock(data: seq<byte>): Result<seq<Fix>>
  {
    if |data| % GROUP_LEN != 0 then Err(BlockSize(|data|))
    else DecodeRecords(data, RecordOffsets(|data| / GROUP_LEN))
  }

  /** `process_datablock` accepts the block: the length is right and every record
      decodes. */
  predicate Accepts(data: seq<byte>)
  {
    DecodeBlock(data).Ok?
  }

  /** The points that the accepted blocks among `blocks` contribute, in order. */
  function PointsOf(blocks: seq<seq<byte>>): seq<Fix>
  {
    if blocks == [] then []
    else
      var last := blocks[|blocks| - 1];
      PointsOf(blocks[..|blocks| - 1]) + (if Accepts(last) then DecodeBlock(last).value else [])
  }

  /** Feeding blocks one by one collects the points of each in turn. */
  lemma {:induction false} PointsOfAppend(a: seq<seq<byte>>, b: seq<seq<byte>>)
    ensures PointsOf(a + b) == PointsOf(a) + PointsOf(b)
  {
    if b != [] {
      var ab := a + b;
      assert ab[..|ab| - 1] == a + b[..|b| - 1];
      PointsOfAppend(a, b[..|b| - 1]);
    } else {
      assert a + b == a;
    }
  }

  /** `Gt120bDataDump`. The source's dumper keeps no state: what it does is print
      the blocks it is given, record by record. The model records those blocks in
      `blocks`; the GPX writer that the workflow calls behind it is outside this
      model and is represented by `exportFiles`, the number of files it writes for
      the points decoded. */
  class DataDump {
    var blocks: seq<seq<byte>>
    const exportFiles: seq<Fix> -> nat

    constructor (exportFiles: seq<Fix> -> nat)
      ensures blocks == [] && this.exportFiles == exportFiles
    {
      blocks := [];
      this.exportFiles := exportFiles;
    }

    /** `process_datablock`: the length must be a multiple of 128 (the failed
        `assert_eq!` is an error, before anything is printed); the block is then
        dumped record by record, and an undecodable record is an error. */
    method ProcessDatablock(data: seq<byte>) returns (r: Result<()>)
      modifies this
      ensures r.Ok? <==> Accepts(data)
      ensures r.Err? ==> r == Err(DecodeBlock(data).error)
      ensures |data| % GROUP_LEN != 0 ==> blocks == old(blocks)
      ensures |data| % GROUP_LEN == 0 ==> blocks == old(blocks) + [data]
    {
      if |data| % GROUP_LEN != 0 {
        return Err(BlockSize(|data|));
      }
      blocks := blocks + [data];
      var headers, visited, decoded := DumpblockHex(data);
      if decoded.Err? {
        return Err(decoded.error);
      }
      r := Ok(());
    }

    /** `write_out`: the number of files the GPX writer produced for the points of
        the accepted blocks. */
    method WriteOut() returns (files: nat)
      ensures files == exportFiles(PointsOf(blocks))
    {
      files := exportFiles(PointsOf(blocks));
    }
  }
}
