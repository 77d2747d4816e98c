/** The frames, answers and decoded values of the unit tests of src/commands.rs,
    restated as facts about the model. */
module CommandVectors {
  import opened Common
  import opened Text
  import opened Framing
  import opened Commands
  import opened FormatVectors

  /** The frames and answers of the unit tests of src/commands.rs. */
  lemma EmptyAnswerVector()
    ensures VerifyAnswer([0x93, 0x00, 0x00, 0x6d]) == Ok([])
  {
    var a: seq<byte> := [0x93, 0x00, 0x00, 0x6d];
    ChecksumOkSumTo(a);
    BeValue2(a[1..3]);
  }

  lemma NmeaSwitchVector()
    ensures CommandFrame(NmeaSwitchCommand(true)) ==
            [0x93, 0x01, 0x01, 0x03, 0, 0, 0, 0, 0, 0, 0, 0, 0, 0, 0, 0x68]
  {
    CommandFrameExplicit(NmeaSwitchCommand(true));
    assert NmeaSwitchCommand(true) == [0x93, 0x01, 0x01, 0x03];
  }

  lemma ModelVector()
    ensures CommandFrame(MODEL_COMMAND) ==
            [0x93, 0x05, 0x04, 0x00, 0x03, 0x01, 0x9f, 0, 0, 0, 0, 0, 0, 0, 0, 0xc1]
    ensures Decoded(VerifyAnswer([0x93, 0x00, 0x03, 0xc2, 0x20, 0x15, 0x73]), DecodeModel) == Ok(Gt120)
  {
    CommandFrameExplicit(MODEL_COMMAND);
    assert SumTo(MODEL_COMMAND, 7) == 0x13f;
    var a: seq<byte> := [0x93, 0x00, 0x03, 0xc2, 0x20, 0x15, 0x73];
    ChecksumOkSumTo(a);
    assert SumTo(a, 7) == 0x200;
    assert ChecksumOk(a);
    BeValue2(a[1..3]);
    assert a[3..|a| - 1] == [0xc2, 0x20, 0x15];
  }

  lemma CountVector()
    ensures CommandFrame(COUNT_COMMAND) ==
            [0x93, 0x0b, 0x03, 0x00, 0x1d, 0, 0, 0, 0, 0, 0, 0, 0, 0, 0, 0x42]
    ensures Decoded(VerifyAnswer([0x93, 0x00, 0x03, 0x00, 0x0f, 0x2b, 0x30]), DecodeCount) == Ok(0x7A000)
  {
    CommandFrameExplicit(COUNT_COMMAND);
    assert SumTo(COUNT_COMMAND, 5) == 0xbe;
    var a: seq<byte> := [0x93, 0x00, 0x03, 0x00, 0x0f, 0x2b, 0x30];
    ChecksumOkSumTo(a);
    assert SumTo(a, 7) == 0x100;
    assert ChecksumOk(a);
    BeValue2(a[1..3]);
    assert a[3..|a| - 1] == [0x00, 0x0f, 0x2b];
  }

  lemma SetTimeVector()
    ensures CommandFrame(SetTimeCommand(1753997870971000)) ==
            [0x93, 0x09, 0x78, 0x38, 0x09, 0x74, 0x40, 0x3b, 0x06, 0x00, 0x2e, 0xe2, 0x8b, 0x68, 0x00, 0xb3]
  {
    SetTimeCommandVector();
    SetTimeFrameVector(SetTimeCommand(1753997870971000));
  }

  lemma SetTimeFrameVector(c: seq<byte>)
    requires c == [0x93, 0x09, 0x78, 0x38, 0x09, 0x74, 0x40, 0x3b, 0x06, 0x00, 0x2e, 0xe2, 0x8b, 0x68, 0x00]
    ensures CommandFrame(c) ==
            [0x93, 0x09, 0x78, 0x38, 0x09, 0x74, 0x40, 0x3b, 0x06, 0x00, 0x2e, 0xe2, 0x8b, 0x68, 0x00, 0xb3]
  {
    CommandFrameExplicit(c);
    var d: seq<byte> := [0x93, 0x09, 0x78, 0x38, 0x09, 0x74, 0x40, 0x3b, 0x06, 0x00, 0x2e, 0xe2, 0x8b, 0x68, 0x00];
    assert SumTo(d, 4) == 0x14c;
    assert SumTo(d, 8) == 0x244;
    assert SumTo(d, 12) == 0x35a;
    assert SumTo(d, 15) == 0x44d;
  }

  lemma SetTimeCommandVector()
    ensures SetTimeCommand(1753997870971000) ==
            [0x93, 0x09, 0x78, 0x38, 0x09, 0x74, 0x40, 0x3b, 0x06, 0x00, 0x2e, 0xe2, 0x8b, 0x68, 0x00]
  {
    var t: u64 := 1753997870971000;
    var secs := t / 1000000;
    assert secs == 1753997870;
    Micros8(t);
    Seconds5(secs);
    assert SetTimeCommand(t) == SET_TIME_PREFIX + LeBytes(t, 8) + LeBytes(secs, 5);
    SetTimeJoin(SET_TIME_PREFIX, LeBytes(t, 8), LeBytes(secs, 5));
  }

  lemma SetTimeJoin(a: seq<byte>, b: seq<byte>, c: seq<byte>)
    requires a == [0x93, 0x09] && b == [0x78, 0x38, 0x09, 0x74, 0x40, 0x3b, 0x06, 0x00]
    requires c == [0x2e, 0xe2, 0x8b, 0x68, 0x00]
    ensures a + b + c == [0x93, 0x09, 0x78, 0x38, 0x09, 0x74, 0x40, 0x3b, 0x06, 0x00, 0x2e, 0xe2, 0x8b, 0x68, 0x00]
  {
  }

  lemma ReadVector()
    ensures CommandFrame(ReadCommand(0x1fff80, 8)) ==
            [0x93, 0x05, 0x07, 0x00, 0x08, 0x04, 0x03, 0x1f, 0xff, 0x80, 0, 0, 0, 0, 0, 0xb4]
    ensures Decoded(VerifyAnswer([0x93, 0x00, 0x08, 0x11, 0x22, 0x3f, 0x44, 0x55, 0x66, 0x77, 0x88, 0xf5]),
                    a => ReadPayload(a, 8)) == Ok([0x11, 0x22, 0x3f, 0x44, 0x55, 0x66, 0x77, 0x88])
  {
    ReadCommandVector();
    ReadFrameVector(ReadCommand(0x1fff80, 8));
    ReadAnswerVector();
    ReadPayloadVector([0x11, 0x22, 0x3f, 0x44, 0x55, 0x66, 0x77, 0x88]);
  }

  lemma ReadFrameVector(c: seq<byte>)
    requires c == [0x93, 0x05, 0x07, 0x00, 0x08, 0x04, 0x03, 0x1f, 0xff, 0x80]
    ensures CommandFrame(c) ==
            [0x93, 0x05, 0x07, 0x00, 0x08, 0x04, 0x03, 0x1f, 0xff, 0x80, 0, 0, 0, 0, 0, 0xb4]
  {
    CommandFrameExplicit(c);
    var d: seq<byte> := [0x93, 0x05, 0x07, 0x00, 0x08, 0x04, 0x03, 0x1f, 0xff, 0x80];
    assert SumTo(d, 10) == 0x24c;
  }

  lemma ReadPayloadVector(a: seq<byte>)
    requires a == [0x11, 0x22, 0x3f, 0x44, 0x55, 0x66, 0x77, 0x88]
    ensures ReadPayload(a, 8) == Ok(a)
  {
  }

  lemma ReadCommandVector()
    ensures ReadCommand(0x1fff80, 8) == [0x93, 0x05, 0x07, 0x00, 0x08, 0x04, 0x03, 0x1f, 0xff, 0x80]
  {
    ReadSize2(8);
    ReadPos4(0x1fff80);
  }

  lemma ReadAnswerVector()
    ensures VerifyAnswer([0x93, 0x00, 0x08, 0x11, 0x22, 0x3f, 0x44, 0x55, 0x66, 0x77, 0x88, 0xf5]) ==
            Ok([0x11, 0x22, 0x3f, 0x44, 0x55, 0x66, 0x77, 0x88])
  {
    var a: seq<byte> := [0x93, 0x00, 0x08, 0x11, 0x22, 0x3f, 0x44, 0x55, 0x66, 0x77, 0x88, 0xf5];
    ChecksumOkSumTo(a);
    assert SumTo(a, 6) == 0x10d;
    assert SumTo(a, 12) == 0x400;
    assert ChecksumOk(a);
    BeValue2(a[1..3]);
    assert a[3..|a| - 1] == [0x11, 0x22, 0x3f, 0x44, 0x55, 0x66, 0x77, 0x88];
  }

  lemma DeleteRebootVector()
    ensures CommandFrame(DELETE_REBOOT_COMMAND) ==
            [0x93, 0x11, 0x02, 0x00, 0x80, 0, 0, 0, 0, 0, 0, 0, 0, 0, 0, 0xda]
  {
    CommandFrameExplicit(DELETE_REBOOT_COMMAND);
    assert SumTo(DELETE_REBOOT_COMMAND, 5) == 0x126;
  }

  const IDENT_TEST_PAYLOAD: seq<byte> :=
    [0xa6, 0x23, 0x63, 0x0d, 0x01, 0x02, 0x00, 0x0a, 0x4d, 0x2f, 0x66, 0x0d, 0x71, 0x8c, 0x18, 0x00, 0x02]

  lemma IdentificationVector()
    ensures CommandFrame(IDENTIFICATION_COMMAND) ==
            [0x93, 0x0a, 0, 0, 0, 0, 0, 0, 0, 0, 0, 0, 0, 0, 0, 0x63]
  {
    CommandFrameExplicit(IDENTIFICATION_COMMAND);
    assert SumTo(IDENTIFICATION_COMMAND, 2) == 0x9d;
  }

  lemma IdentificationAnswerVector()
    ensures VerifyAnswer([0x93, 0x00, 0x11] + IDENT_TEST_PAYLOAD + [0x10]) == Ok(IDENT_TEST_PAYLOAD)
  {
    var a: seq<byte> := [0x93, 0x00, 0x11, 0xa6, 0x23, 0x63, 0x0d, 0x01, 0x02, 0x00, 0x0a, 0x4d,
                         0x2f, 0x66, 0x0d, 0x71, 0x8c, 0x18, 0x00, 0x02, 0x10];
    assert a == [0x93, 0x00, 0x11] + IDENT_TEST_PAYLOAD + [0x10];
    ChecksumOkSumTo(a);
    assert SumTo(a, 7) == 0x1dd;
    assert SumTo(a, 14) == 0x2cc;
    assert SumTo(a, 21) == 0x400;
    BeValue2(a[1..3]);
    assert a[3..|a| - 1] == IDENT_TEST_PAYLOAD;
  }

  lemma IdentificationFieldsVector(p: seq<byte>)
    requires p == IDENT_TEST_PAYLOAD
    ensures DecodeIdentification(p, true) ==
            Ok(Identification("", 10, "0010-00188C710D66", "GT120B-0D66", "GT120B-0D66",
                              "100224600998", "", "1.2.231013", "not installed", ""))
  {
    IdentPayloadValues(p);
    IdentificationFields(p, true);
    var v3 := LeValue(p[8..10]);
    FirmwareVersionVector(p[4], p[5], v3);
    DeviceIdVector(LeValue(p[10..16]));
    NameVector(p[11], p[10]);
    SerialNumberVector(LeValue(p[0..4]));
  }

  lemma IdentPayloadValues(p: seq<byte>)
    requires p == IDENT_TEST_PAYLOAD
    ensures BeValue(p[6..8]) == 10
    ensures LeValue(p[0..4]) == 224600998
    ensures LeValue(p[8..10]) == 0x2f4d
    ensures LeValue(p[10..16]) == 0x188c710d66
    ensures p[4] == 1 && p[5] == 2 && p[10] == 0x66 && p[11] == 0x0d
  {
    BeValue2(p[6..8]);
    LeValue4(p[0..4]);
    LeValue2(p[8..10]);
    DevIdBytes(p[10..16]);
  }

  lemma DevIdBytes(s: seq<byte>)
    requires s == [0x66, 0x0d, 0x71, 0x8c, 0x18, 0x00]
    ensures LeValue(s) == 0x188c710d66
  {
    LeValue4(s[2..]);
    assert s[1..][1..] == s[2..];
  }

  lemma FirmwareVersionVector(v1: nat, v2: nat, v3: nat)
    requires v1 == 1 && v2 == 2 && v3 == 0x2f4d
    ensures FirmwareVersion(v1, v2, v3) == "1.2.231013"
  {
    assert VersionYear(v3) == 23 && VersionMonth(v3) == 10 && VersionDay(v3) == 13;
    assert DecimalString(23) == "23" && DecimalString(10) == "10" && DecimalString(13) == "13";
  }

  lemma DeviceIdVector(devid2: nat)
    requires devid2 == 0x188c710d66
    ensures DeviceId(10, devid2) == "0010-00188C710D66"
  {
    DevId12(devid2);
    ModelDigits();
  }

  lemma NameVector(hi: byte, lo: byte)
    requires hi == 0x0d && lo == 0x66
    ensures GT120B_NAME + "-" + HexFixed(hi, 2) + HexFixed(lo, 2) == "GT120B-0D66"
  {
    assert HexFixed(hi, 2) == "0D";
    assert HexFixed(lo, 2) == "66";
  }

  lemma SerialNumberVector(serial: nat)
    requires serial == 224600998
    ensures DecimalString(100000000000 + serial) == "100224600998"
  {
    Serial12(100000000000 + serial);
  }
}

/** Concrete renderings used by the vectors above, one helper per digit pair or
    byte; the value is a parameter so that the verifier unfolds the formatter one
    step at a time. */
module FormatVectors {
  import opened Common
  import opened Text

  lemma Serial2(n: nat)
    requires n == 10
    ensures DecimalString(n) == "10"
  {
    assert DecimalString(n / 10) == "1";
  }

  lemma Serial4(n: nat)
    requires n == 1002
    ensures DecimalString(n) == "1002"
  {
    var m := n / 10;
    Serial2(m / 10);
    DecimalStep(m, "10");
    DecimalStep(n, "100");
  }

  lemma Serial6(n: nat)
    requires n == 100224
    ensures DecimalString(n) == "100224"
  {
    var m := n / 10;
    Serial4(m / 10);
    DecimalStep(m, "1002");
    DecimalStep(n, "10022");
  }

  lemma Serial8(n: nat)
    requires n == 10022460
    ensures DecimalString(n) == "10022460"
  {
    var m := n / 10;
    Serial6(m / 10);
    DecimalStep(m, "100224");
    DecimalStep(n, "1002246");
  }

  lemma Serial10(n: nat)
    requires n == 1002246009
    ensures DecimalString(n) == "1002246009"
  {
    var m := n / 10;
    Serial8(m / 10);
    DecimalStep(m, "10022460");
    DecimalStep(n, "100224600");
  }

  lemma Serial12(n: nat)
    requires n == 100224600998
    ensures DecimalString(n) == "100224600998"
  {
    var m := n / 10;
    Serial10(m / 10);
    DecimalStep(m, "1002246009");
    DecimalStep(n, "10022460099");
  }

  /** One more digit of `DecimalString`. */
  lemma DecimalStep(n: nat, s: string)
    requires n >= 10 && DecimalString(n / 10) == s
    ensures DecimalString(n) == s + [DigitChar(n % 10)]
  {
  }

  lemma DevId1(n: nat)
    requires n == 0x0
    ensures HexFixed(n, 1) == "0"
  {
    assert HexFixed(n / 0x10, 0) == [];
  }

  lemma DevId2(n: nat)
    requires n == 0x0
    ensures HexFixed(n, 2) == "00"
  {
    DevId1(n / 0x10);
  }

  lemma DevId3(n: nat)
    requires n == 0x1
    ensures HexFixed(n, 3) == "001"
  {
    DevId2(n / 0x10);
  }

  lemma DevId4(n: nat)
    requires n == 0x18
    ensures HexFixed(n, 4) == "0018"
  {
    DevId3(n / 0x10);
  }

  lemma DevId5(n: nat)
    requires n == 0x188
    ensures HexFixed(n, 5) == "00188"
  {
    DevId4(n / 0x10);
  }

  lemma DevId6(n: nat)
    requires n == 0x188c
    ensures HexFixed(n, 6) == "00188C"
  {
    DevId5(n / 0x10);
  }

  lemma DevId7(n: nat)
    requires n == 0x188c7
    ensures HexFixed(n, 7) == "00188C7"
  {
    DevId6(n / 0x10);
  }

  lemma DevId8(n: nat)
    requires n == 0x188c71
    ensures HexFixed(n, 8) == "00188C71"
  {
    DevId7(n / 0x10);
  }

  lemma DevId9(n: nat)
    requires n == 0x188c710
    ensures HexFixed(n, 9) == "00188C710"
  {
    DevId8(n / 0x10);
  }

  lemma DevId10(n: nat)
    requires n == 0x188c710d
    ensures HexFixed(n, 10) == "00188C710D"
  {
    DevId9(n / 0x10);
  }

  lemma DevId11(n: nat)
    requires n == 0x188c710d6
    ensures HexFixed(n, 11) == "00188C710D6"
  {
    DevId10(n / 0x10);
  }

  lemma DevId12(n: nat)
    requires n == 0x188c710d66
    ensures HexFixed(n, 12) == "00188C710D66"
  {
    DevId11(n / 0x10);
  }

  lemma Micros1(x: nat)
    requires x == 0
    ensures LeBytes(x, 1) == [0x00]
  {
    assert LeBytes(x / 256, 0) == [];
  }

  lemma Micros2(x: nat)
    requires x == 6
    ensures LeBytes(x, 2) == [0x06, 0x00]
  {
    Micros1(x / 256);
  }

  lemma Micros3(x: nat)
    requires x == 1595
    ensures LeBytes(x, 3) == [0x3b, 0x06, 0x00]
  {
    Micros2(x / 256);
  }

  lemma Micros4(x: nat)
    requires x == 408384
    ensures LeBytes(x, 4) == [0x40, 0x3b, 0x06, 0x00]
  {
    Micros3(x / 256);
  }

  lemma Micros5(x: nat)
    requires x == 104546420
    ensures LeBytes(x, 5) == [0x74, 0x40, 0x3b, 0x06, 0x00]
  {
    Micros4(x / 256);
  }

  lemma Micros6(x: nat)
    requires x == 26763883529
    ensures LeBytes(x, 6) == [0x09, 0x74, 0x40, 0x3b, 0x06, 0x00]
  {
    Micros5(x / 256);
  }

  lemma Micros7(x: nat)
    requires x == 6851554183480
    ensures LeBytes(x, 7) == [0x38, 0x09, 0x74, 0x40, 0x3b, 0x06, 0x00]
  {
    Micros6(x / 256);
  }

  lemma Micros8(x: nat)
    requires x == 1753997870971000
    ensures LeBytes(x, 8) == [0x78, 0x38, 0x09, 0x74, 0x40, 0x3b, 0x06, 0x00]
  {
    Micros7(x / 256);
  }

  lemma Seconds1(x: nat)
    requires x == 0
    ensures LeBytes(x, 1) == [0x00]
  {
    assert LeBytes(x / 256, 0) == [];
  }

  lemma Seconds2(x: nat)
    requires x == 104
    ensures LeBytes(x, 2) == [0x68, 0x00]
  {
    Seconds1(x / 256);
  }

  lemma Seconds3(x: nat)
    requires x == 26763
    ensures LeBytes(x, 3) == [0x8b, 0x68, 0x00]
  {
    Seconds2(x / 256);
  }

  lemma Seconds4(x: nat)
    requires x == 6851554
    ensures LeBytes(x, 4) == [0xe2, 0x8b, 0x68, 0x00]
  {
    Seconds3(x / 256);
  }

  lemma Seconds5(x: nat)
    requires x == 1753997870
    ensures LeBytes(x, 5) == [0x2e, 0xe2, 0x8b, 0x68, 0x00]
  {
    Seconds4(x / 256);
  }

  lemma ReadSize1(x: nat)
    requires x == 0
    ensures BeBytes(x, 1) == [0x00]
  {
    assert BeBytes(x / 256, 0) == [];
  }

  lemma ReadSize2(x: nat)
    requires x == 8
    ensures BeBytes(x, 2) == [0x00, 0x08]
  {
    ReadSize1(x / 256);
  }

  lemma ReadPos1(x: nat)
    requires x == 0
    ensures BeBytes(x, 1) == [0x00]
  {
    assert BeBytes(x / 256, 0) == [];
  }

  lemma ReadPos2(x: nat)
    requires x == 31
    ensures BeBytes(x, 2) == [0x00, 0x1f]
  {
    ReadPos1(x / 256);
  }

  lemma ReadPos3(x: nat)
    requires x == 8191
    ensures BeBytes(x, 3) == [0x00, 0x1f, 0xff]
  {
    ReadPos2(x / 256);
  }

  lemma ReadPos4(x: nat)
    requires x == 2097024
    ensures BeBytes(x, 4) == [0x00, 0x1f, 0xff, 0x80]
  {
    ReadPos3(x / 256);
  }
}
