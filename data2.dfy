/** The exploratory record decoder of doc/topics/dataformat-parsing/data2.rs, an
    earlier twin of `dumpblock_parse_one`, and the sample records of its `main`. */
module Data2 {
  import opened Common
  import opened Records

  /** `t`: like `dumpblock_parse_one`, except that only 0xFF, 0x41 and 0x43 records are
      skipped; a 0x42 (switch-off) record is announced and then decoded like a fix,
      and a 0x50 record is decoded too. */
  function Trackpoint(value: seq<byte>): (r: Result<Option<Fix>>)
    requires |value| == RECORD_LEN
    ensures value[0] != 0x42 && value[0] != 0x50 ==> r == ParseOne(value)
    ensures value[0] == 0x42 || value[0] == 0x50 ==>
              (r.Ok? <==> DecodeFix(value).Ok?) &&
              (r.Ok? ==> r.value == Some(DecodeFix(value).value)) &&
              (r.Err? ==> r.error == DecodeFix(value).error)
  {
    if value[0] == 0xFF || value[0] == 0x41 || value[0] == 0x43 then Ok(None)
    else
      var fix :- DecodeFix(value);
      Ok(Some(fix))
  }

  /** The record passed to `t` at line 89 of `main`. */
  const L89: seq<byte> :=
    [0x41, 0xD0, 0x19, 0x07, 0xFC, 0x46, 0x74, 0xE8, 0x00, 0x00, 0x0C, 0x00, 0x00, 0x00, 0x00,
     0x00, 0x00, 0x00, 0x00, 0x00, 0x00, 0x00, 0x00, 0x00, 0x00, 0x00, 0x00, 0x00, 0x00, 0x00]

  /** The record passed to `t` at line 91 of `main`. */
  const L91: seq<byte> :=
    [0x00, 0xD5, 0x19, 0x07, 0xFC, 0x48, 0x00, 0x00, 0x0E, 0x00, 0x7D, 0x3B, 0x00, 0x00, 0xA2,
     0xA5, 0x3C, 0x1C, 0x6C, 0x83, 0x15, 0x05, 0x08, 0xC0, 0x00, 0x00, 0x5A, 0x00, 0x49, 0x1D]

  /** The record passed to `t` at line 95 of `main`. */
  const L95: seq<byte> :=
    [0x00, 0xD8, 0x19, 0x07, 0xFC, 0x48, 0x68, 0xBF, 0x0E, 0x00, 0x11, 0x39, 0x00, 0x19, 0x34,
     0xA5, 0x3C, 0x1C, 0x28, 0x81, 0x15, 0x05, 0x18, 0xBF, 0x00, 0x00, 0x0F, 0x00, 0x66, 0x6B]

  /** The record passed to `t` at line 96 of `main`. */
  const L96: seq<byte> :=
    [0x00, 0xD9, 0x19, 0x07, 0xFC, 0x49, 0x20, 0x4E, 0x0E, 0x00, 0x11, 0x39, 0x00, 0x19, 0x34,
     0xA5, 0x3C, 0x1C, 0xC2, 0x82, 0x15, 0x05, 0x3A, 0xC0, 0x00, 0x00, 0x13, 0x00, 0xA9, 0x63]

  /** The record passed to `t` at line 97 of `main`. */
  const L97: seq<byte> :=
    [0x42, 0xD9, 0x19, 0x07, 0xFC, 0x49, 0x20, 0x4E, 0x0E, 0x00, 0x11, 0x39, 0x00, 0x19, 0x34,
     0xA5, 0x3C, 0x1C, 0xC2, 0x82, 0x15, 0x05, 0x3A, 0xC0, 0x00, 0x00, 0x13, 0x00, 0xA9, 0x63]

  /** The record passed to `t` at line 103 of `main`. */
  const L103: seq<byte> :=
    [0x00, 0xA4, 0x19, 0x07, 0xFD, 0x07, 0xB8, 0x88, 0x29, 0x00, 0xCF, 0x35, 0x00, 0x19, 0xB2,
     0x96, 0x3B, 0x1C, 0x44, 0x53, 0x18, 0x05, 0x6A, 0xB3, 0x00, 0x00, 0x4E, 0x00, 0x95, 0x24]

  /** The record passed to `t` at line 104 of `main`. */
  const L104: seq<byte> :=
    [0x00, 0xA4, 0x19, 0x07, 0xFD, 0x07, 0x10, 0xA4, 0x29, 0x00, 0x0D, 0x42, 0x00, 0x07, 0xBC,
     0x96, 0x3B, 0x1C, 0xC4, 0x55, 0x18, 0x05, 0x02, 0xB2, 0x00, 0x00, 0x45, 0x00, 0x58, 0x21]

  /** The record passed to `t` at line 107 of `main`. */
  const L107: seq<byte> :=
    [0x00, 0xA4, 0x19, 0x07, 0xFD, 0x08, 0x99, 0xAD, 0x2A, 0x00, 0x2B, 0x35, 0x00, 0x19, 0x2C,
     0x95, 0x3B, 0x1C, 0xCC, 0x61, 0x18, 0x05, 0xC2, 0xAB, 0x00, 0x00, 0x73, 0x00, 0xCD, 0x1E]

  /** The record passed to `t` at line 108 of `main`. */
  const L108: seq<byte> :=
    [0x42, 0xA6, 0x19, 0x07, 0xFD, 0x08, 0x69, 0xB5, 0x2A, 0x00, 0x00, 0x00, 0x00, 0x00, 0x2C,
     0x95, 0x3B, 0x1C, 0xCE, 0x55, 0x18, 0x05, 0xB6, 0xA3, 0x00, 0x00, 0x19, 0x00, 0xC0, 0x0F]

  /** The record passed to `t` at line 109 of `main`. */
  const L109: seq<byte> :=
    [0xFF, 0xFF, 0xFF, 0xFF, 0xFF, 0xFF, 0xFF, 0xFF, 0xFF, 0xFF, 0xFF, 0xFF, 0xFF, 0xFF, 0xFF,
     0xFF, 0xFF, 0xFF, 0xFF, 0xFF, 0xFF, 0xFF, 0xFF, 0xFF, 0xFF, 0xFF, 0xFF, 0xFF, 0xFF, 0xFF]

  /** A record whose time-stamp bytes spell out `t` decodes to `t`. */
  lemma TimeVector(v: seq<byte>, t: DateTime)
    requires |v| == RECORD_LEN
    requires t.year == 2000 + v[2] as int && t.month == v[3] % 16 && t.day == v[4] / 8
    requires t.hour == 4 * (v[4] % 8) + v[5] / 64 && t.minute == v[5] % 64
    requires t.second == (v[6] + 256 * (v[7] as int)) / 1000
    requires t.milli == (v[6] + 256 * (v[7] as int)) % 1000
    ensures RecordTime(v) == t
  {
    RecordTimeBytes(v);
  }

  /** A record whose bytes spell out the fix `f` decodes to it. */
  lemma FixVector(v: seq<byte>, f: Fix)
    requires |v| == RECORD_LEN && ValidDateTime(f.time) && RecordTime(v) == f.time
    requires f.satUsed == v[1] % 16 && f.satVisib == v[1] / 16 && f.hdop == v[8]
    requires f.course == v[28] + 256 * (v[29] as int) && f.speed == v[26] + 256 * (v[27] as int)
    requires f.ele == v[22] + 256 * (v[23] as int)
    requires f.lat == v[14] + 256 * (v[15] as int) + 65536 * (v[16] as int) + 16777216 * (v[17] as int)
    requires f.lon == v[18] + 256 * (v[19] as int) + 65536 * (v[20] as int) + 16777216 * (v[21] as int)
    ensures DecodeFix(v) == Ok(f)
  {
    LeValue2(v[28..30]);
    LeValue2(v[26..28]);
    LeValue2(v[22..24]);
    LeValue4(v[14..18]);
    LeValue4(v[18..22]);
  }

  /** The fixes with the times written beside them in `main`. */
  lemma SampleTimes()
    ensures RecordTime(L91) == DateTime(2025, 7, 31, 17, 8, 0, 0)
    ensures RecordTime(L95) == DateTime(2025, 7, 31, 17, 8, 49, 0)
    ensures RecordTime(L96) == DateTime(2025, 7, 31, 17, 9, 20, 0)
    ensures RecordTime(L103) == DateTime(2025, 7, 31, 20, 7, 35, 0)
    ensures RecordTime(L104) == DateTime(2025, 7, 31, 20, 7, 42, 0)
    ensures RecordTime(L107) == DateTime(2025, 7, 31, 20, 8, 44, 441)
  {
    Time91();
    Time95();
    Time96();
    Time103();
    Time104();
    Time107();
  }

  lemma Time91()
    ensures RecordTime(L91) == DateTime(2025, 7, 31, 17, 8, 0, 0)
  {
    TimeVector(L91, DateTime(2025, 7, 31, 17, 8, 0, 0));
  }

  lemma Time95()
    ensures RecordTime(L95) == DateTime(2025, 7, 31, 17, 8, 49, 0)
  {
    TimeVector(L95, DateTime(2025, 7, 31, 17, 8, 49, 0));
  }

  lemma Time96()
    ensures RecordTime(L96) == DateTime(2025, 7, 31, 17, 9, 20, 0)
  {
    TimeVector(L96, DateTime(2025, 7, 31, 17, 9, 20, 0));
  }

  lemma Time103()
    ensures RecordTime(L103) == DateTime(2025, 7, 31, 20, 7, 35, 0)
  {
    TimeVector(L103, DateTime(2025, 7, 31, 20, 7, 35, 0));
  }

  lemma Time104()
    ensures RecordTime(L104) == DateTime(2025, 7, 31, 20, 7, 42, 0)
  {
    TimeVector(L104, DateTime(2025, 7, 31, 20, 7, 42, 0));
  }

  lemma Time107()
    ensures RecordTime(L107) == DateTime(2025, 7, 31, 20, 8, 44, 441)
  {
    TimeVector(L107, DateTime(2025, 7, 31, 20, 8, 44, 441));
  }

  /** The fix at line 107 in full: 4 satellites used of 10 in view, course 78.85°,
      speed 1.15, hdop 4.2, elevation 439.70 m, 47.3666860° N 8.5483980° E. Both
      decoders agree on it. */
  lemma SampleFix()
    ensures Trackpoint(L107) == ParseOne(L107)
    ensures Trackpoint(L107) ==
              Ok(Some(Fix(4, 10, DateTime(2025, 7, 31, 20, 8, 44, 441), 7885, 115, 42, 43970,
                          473666860, 85483980)))
  {
    Fix107();
    assert L107[0] == 0;
  }

  lemma Fix107()
    ensures DecodeFix(L107) ==
              Ok(Fix(4, 10, DateTime(2025, 7, 31, 20, 8, 44, 441), 7885, 115, 42, 43970,
                     473666860, 85483980))
  {
    Time107();
    FixVector(L107, Fix(4, 10, DateTime(2025, 7, 31, 20, 8, 44, 441), 7885, 115, 42, 43970,
                        473666860, 85483980));
  }

  /** The switch-off record at line 97 repeats the fix at line 96 under tag 0x42:
      `t` decodes it to the same point, `dumpblock_parse_one` skips it. */
  lemma SampleSwitchOff()
    ensures Trackpoint(L97) == Trackpoint(L96)
    ensures Trackpoint(L96) ==
              Ok(Some(Fix(9, 13, DateTime(2025, 7, 31, 17, 9, 20, 0), 25513, 19, 14, 49210,
                          473736500, 85295810)))
    ensures ParseOne(L97) == Ok(None)
  {
    Fix96();
    SameFix97();
    assert L97[0] == 0x42 && L96[0] == 0;
  }

  lemma Fix96()
    ensures DecodeFix(L96) ==
              Ok(Fix(9, 13, DateTime(2025, 7, 31, 17, 9, 20, 0), 25513, 19, 14, 49210,
                     473736500, 85295810))
  {
    Time96();
    FixVector(L96, Fix(9, 13, DateTime(2025, 7, 31, 17, 9, 20, 0), 25513, 19, 14, 49210,
                       473736500, 85295810));
  }

  lemma SameFix97()
    ensures DecodeFix(L97) == DecodeFix(L96)
  {
    assert L97[1..] == L96[1..];
    DecodeFixIgnoresTag(L97, L96);
  }

  /** The erased record at line 109 would not decode (month 15), but both decoders
      skip it on its tag. */
  lemma SampleErased()
    ensures DecodeFix(L109) == Err(InvalidTimestamp)
    ensures Trackpoint(L109) == Ok(None) && ParseOne(L109) == Ok(None)
  {
    RecordTimeBytes(L109);
    assert RecordTime(L109).month == 15;
  }
}
