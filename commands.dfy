/** The command catalog of src/commands.rs. Each command is a request encoder (a
    short byte string that the framing layer pads to 16 bytes) together with a
    validator/decoder of the answer payload. The `Cmd...` methods build the request
    as the source does, by growing a byte vector, and run one exchange on the
    `CommBulk`; every `panic!` of the source is an `Err` of the model. */
module Commands {
  import opened Common
  import opened Text
  import opened Framing
  import opened Transport
  import opened Comm

  const NMEA_SWITCH_PREFIX: seq<byte> := [0x93, 0x01, 0x01]
  const MODEL_COMMAND: seq<byte> := [0x93, 0x05, 0x04, 0x00, 0x03, 0x01, 0x9f]
  const IDENTIFICATION_COMMAND: seq<byte> := [0x93, 0x0a]
  const COUNT_COMMAND: seq<byte> := [0x93, 0x0b, 0x03, 0x00, 0x1d]
  const SET_TIME_PREFIX: seq<byte> := [0x93, 0x09]
  const READ_PREFIX: seq<byte> := [0x93, 0x05, 0x07]
  const DELETE_REBOOT_COMMAND: seq<byte> := [0x93, 0x11, 0x02, 0x00, 0x80]

  /** The raw answer of `Exchange` or the decoder applied to its payload. */
  function Decoded<T>(e: Result<seq<byte>>, decode: seq<byte> -> Result<T>): Result<T>
  {
    if e.Err? then Err(e.error) else decode(e.value)
  }

  // ---------------------------------------------------------------- NMEA switch

  /** `93 01 01` and then `03` (GT-120b) or `00` (GT-120). */
  function NmeaSwitchCommand(flag: bool): (c: seq<byte>)
    ensures |c| == 4 && c[..3] == NMEA_SWITCH_PREFIX
    ensures flag <==> c[3] == 0x03
    ensures !flag <==> c[3] == 0x00
  {
    NMEA_SWITCH_PREFIX + [if flag then 0x03 else 0x00]
  }

  /** `cmd_nmea_switch`: the answer payload must be empty. */
  method CmdNmeaSwitch(comm: CommBulk, flag: bool) returns (r: Result<()>)
    modifies comm.intf
    ensures r.Ok? <==> old(Exchange(comm.intf, NmeaSwitchCommand(flag))) == Ok([])
    ensures r == EqAnswer(old(Exchange(comm.intf, NmeaSwitchCommand(flag))), [])
    ensures comm.intf.sent == old(comm.intf.sent) + [CommandFrame(NmeaSwitchCommand(flag))]
    ensures comm.intf.served == old(comm.intf.served)
    ensures comm.intf.boots == old(comm.intf.boots)
  {
    var command := NMEA_SWITCH_PREFIX;
    command := command + [if flag then 0x03 else 0x00];
    assert command == NmeaSwitchCommand(flag);
    assert !IsReadFrame(CommandFrame(command));
    r := comm.SimpleCmdEqResult(command, []);
  }

  // ---------------------------------------------------------------------- model

  datatype Model = Gt100 | Gt200 | Gt120 | Gt200e

  /** The model code byte the device reports for each model. */
  function ModelCode(m: Model): byte
  {
    match m
    case Gt100 => 0x13
    case Gt200 => 0x14
    case Gt120 => 0x15
    case Gt200e => 0x17
  }

  /** The answer check and match of `cmd_model`. */
  function DecodeModel(answer: seq<byte>): (r: Result<Model>)
    ensures r.Ok? <==> |answer| == 3 && answer[0] == 0xc2 && answer[1] == 0x20 &&
                       answer[2] in {0x13, 0x14, 0x15, 0x17}
    ensures r.Ok? ==> ModelCode(r.value) == answer[2]
    ensures !(|answer| == 3 && answer[0] == 0xc2 && answer[1] == 0x20) ==>
              r == Err(UnexpectedAnswer(answer))
    ensures (|answer| == 3 && answer[0] == 0xc2 && answer[1] == 0x20 &&
             answer[2] !in {0x13, 0x14, 0x15, 0x17}) ==> r == Err(UnknownModelCode(answer[2]))
  {
    if |answer| != 3 || answer[0] != 0xc2 || answer[1] != 0x20 then Err(UnexpectedAnswer(answer))
    else if answer[2] == 0x13 then Ok(Gt100)
    else if answer[2] == 0x14 then Ok(Gt200)
    else if answer[2] == 0x15 then Ok(Gt120)
    else if answer[2] == 0x17 then Ok(Gt200e)
    else Err(UnknownModelCode(answer[2]))
  }

  /** Every model is recognised from the answer that carries its code. */
  lemma ModelRoundTrip(m: Model)
    ensures DecodeModel([0xc2, 0x20, ModelCode(m)]) == Ok(m)
  {
  }

  /** `cmd_model` */
  method CmdModel(comm: CommBulk) returns (r: Result<Model>)
    modifies comm.intf
    ensures r == Decoded(old(Exchange(comm.intf, MODEL_COMMAND)), DecodeModel)
    ensures comm.intf.sent == old(comm.intf.sent) + [CommandFrame(MODEL_COMMAND)]
    ensures comm.intf.served == old(comm.intf.served)
    ensures comm.intf.boots == old(comm.intf.boots)
  {
    var command := MODEL_COMMAND;
    assert !IsReadFrame(CommandFrame(command));
    var answer :- comm.SimpleCmdReturn(command);
    r := DecodeModel(answer);
  }

  // ------------------------------------------------------------- identification

  /** `IdentificationJson` */
  datatype Identification = Identification(
    manufacturer: string,
    model: nat,
    deviceId: string,
    name: string,
    alias: string,
    serialNumber: string,
    hwVersion: string,
    fwVersion: string,
    swVersion: string,
    description: string)

  /** The firmware date word as day (`& 0x1f`), month (`>> 5 & 0xf`) and year
      (`>> 9 & 0xff`); on unsigned values a right shift by k is division by 2^k and
      a mask of k one-bits is the remainder modulo 2^k. */
  function VersionDay(v3: nat): nat { v3 % 32 }
  function VersionMonth(v3: nat): nat { (v3 / 32) % 16 }
  function VersionYear(v3: nat): nat { (v3 / 512) % 256 }

  /** For a 16-bit word the three fields partition its bits: together they give it back. */
  lemma VersionDateSplit(v3: nat)
    requires v3 < U16_LIMIT
    ensures VersionDay(v3) < 32 && VersionMonth(v3) < 16 && VersionYear(v3) < 128
    ensures v3 == VersionDay(v3) + 32 * VersionMonth(v3) + 512 * VersionYear(v3)
  {
    var q := v3 / 32;
    DivModUnique(v3, 32, q, v3 % 32);
    DivModUnique(q, 16, q / 16, q % 16);
    assert v3 / 512 == q / 16 by {
      DivModUnique(v3, 512, q / 16, 32 * (q % 16) + v3 % 32);
    }
    assert q / 16 < 128;
  }

  /** `"{v1}.{v2}.{yy:02}{mm:02}{dd:02}"` */
  function FirmwareVersion(v1: nat, v2: nat, v3: nat): string
  {
    DecimalString(v1) + "." + DecimalString(v2) + "." +
    ZeroPad(DecimalString(VersionYear(v3)), 2) + ZeroPad(DecimalString(VersionMonth(v3)), 2) +
    ZeroPad(DecimalString(VersionDay(v3)), 2)
  }

  /** `(u64::from_le_bytes(bytes 8..16) >> 16) & 0xffffffffffff` */
  function DevId2(b: seq<byte>): nat
  {
    (LeValue(b) / 0x1_0000) % 0x1_0000_0000_0000
  }

  /** The 48 bits above the low 16 are the little-endian value of bytes 2..8. */
  lemma DevId2Value(b: seq<byte>)
    requires |b| == 8
    ensures DevId2(b) == LeValue(b[2..])
  {
    LeDropLow2(b);
    LeValueBound6(b[2..]);
  }

  /** The model number as it appears in the device id. */
  lemma ModelDigits()
    ensures ZeroPad(DecimalString(10), 4) == "0010"
  {
    assert DecimalString(10) == "10";
  }

  /** `"{model:04}-{devid2:012X}"` */
  function DeviceId(model: nat, devid2: nat): string
  {
    ZeroPad(DecimalString(model), 4) + "-" + HexFixed(devid2, 12)
  }

  /** The GT-120's device id: "0010-" and twelve hex digits denoting the low 48
      bits of `devid2`. */
  lemma DeviceIdForm(devid2: nat)
    ensures var d := DeviceId(10, devid2);
      && |d| == 17 && d[..5] == "0010-" && d[5..] == HexFixed(devid2, 12)
      && AllHexDigits(d[5..]) && HexValue(d[5..]) == devid2 % 0x1_0000_0000_0000
  {
    ModelDigits();
    Hex12RoundTrip(devid2);
  }

  const GT120B_NAME: string := "GT120B"

  /** The answer check and field derivation of `cmd_identification`. */
  function DecodeIdentification(answer: seq<byte>, confOrigSwEquivalent: bool): (r: Result<Identification>)
    ensures r.Ok? <==> |answer| == 17 && BeValue(answer[6..8]) == 10
    ensures |answer| != 17 ==> r == Err(UnexpectedAnswer(answer))
    ensures |answer| == 17 && BeValue(answer[6..8]) != 10 ==>
              r == Err(UnknownIdentModel(BeValue(answer[6..8])))
    ensures r.Ok? ==> r.value.model == 10
    ensures r.Ok? ==> (r.value.manufacturer == "" <==> confOrigSwEquivalent)
    ensures r.Ok? ==> r.value.name == r.value.alias ==
                      GT120B_NAME + "-" + HexFixed(answer[11], 2) + HexFixed(answer[10], 2)
    ensures r.Ok? ==> r.value.hwVersion == "" && r.value.swVersion == "not installed" &&
                      r.value.description == ""
  {
    if |answer| != 17 then Err(UnexpectedAnswer(answer))
    else
      var serial := LeValue(answer[0..4]);
      var version1 := answer[4];
      var version2 := answer[5];
      var version3 := LeValue(answer[8..10]);
      var name2 := HexFixed(answer[11], 2) + HexFixed(answer[10], 2);
      var version := FirmwareVersion(version1, version2, version3);
      var model := BeValue(answer[6..8]);
      var devid2 := DevId2(answer[8..16]);
      var serialnumber := 10000000000 * model + serial;
      var deviceid := DeviceId(model, devid2);
      if model != 10 then Err(UnknownIdentModel(model))
      else
        Ok(Identification(
          if confOrigSwEquivalent then "" else "mobileaction //TODO",
          model,
          deviceid,
          GT120B_NAME + "-" + name2,
          GT120B_NAME + "-" + name2,
          DecimalString(serialnumber),
          "",
          version,
          "not installed",
          ""))
  }

  /** The fields of an accepted identification answer, one by one. */
  lemma IdentificationFields(answer: seq<byte>, confOrigSwEquivalent: bool)
    requires |answer| == 17 && BeValue(answer[6..8]) == 10
    ensures DecodeIdentification(answer, confOrigSwEquivalent) ==
            Ok(Identification(
              if confOrigSwEquivalent then "" else "mobileaction //TODO",
              10,
              DeviceId(10, LeValue(answer[10..16])),
              GT120B_NAME + "-" + HexFixed(answer[11], 2) + HexFixed(answer[10], 2),
              GT120B_NAME + "-" + HexFixed(answer[11], 2) + HexFixed(answer[10], 2),
              DecimalString(100000000000 + LeValue(answer[0..4])),
              "",
              FirmwareVersion(answer[4], answer[5], LeValue(answer[8..10])),
              "not installed",
              ""))
  {
    DevId2Value(answer[8..16]);
    assert answer[8..16][2..] == answer[10..16];
  }

  /** The serial number of a decoded identification is the decimal rendering of
      10^10 * model + the little-endian u32 of bytes 0..4. */
  lemma IdentificationSerial(answer: seq<byte>, confOrigSwEquivalent: bool)
    requires DecodeIdentification(answer, confOrigSwEquivalent).Ok?
    ensures var id := DecodeIdentification(answer, confOrigSwEquivalent).value;
      && AllDigits(id.serialNumber)
      && DecimalValue(id.serialNumber) == 100000000000 + LeValue(answer[0..4])
  {
    IdentificationFields(answer, confOrigSwEquivalent);
    DecimalRoundTrip(100000000000 + LeValue(answer[0..4]));
  }

  /** The device id of a decoded identification is "0010-" followed by 12 hex digits
      denoting the 48 bits above the low 16 of the little-endian u64 of bytes 8..16,
      which are bytes 10..16. */
  lemma IdentificationDeviceId(answer: seq<byte>, confOrigSwEquivalent: bool)
    requires DecodeIdentification(answer, confOrigSwEquivalent).Ok?
    ensures var d := DecodeIdentification(answer, confOrigSwEquivalent).value.deviceId;
      && |d| == 17 && d[..5] == "0010-"
      && AllHexDigits(d[5..]) && HexValue(d[5..]) == LeValue(answer[10..16])
  {
    IdentificationFields(answer, confOrigSwEquivalent);
    var devid2 := LeValue(answer[10..16]);
    var d := DecodeIdentification(answer, confOrigSwEquivalent).value.deviceId;
    assert d == DeviceId(10, devid2);
    DeviceIdForm(devid2);
    LeValueBound6(answer[10..16]);
    DivModUnique(devid2, 0x1_0000_0000_0000, 0, devid2);
  }

  /** The name of a decoded identification is "GT120B-" followed by bytes 11 and 10,
      two hex digits each. */
  lemma IdentificationName(answer: seq<byte>, confOrigSwEquivalent: bool)
    requires DecodeIdentification(answer, confOrigSwEquivalent).Ok?
    ensures var n := DecodeIdentification(answer, confOrigSwEquivalent).value.name;
      && |n| == 11 && n[..7] == "GT120B-"
      && AllHexDigits(n[7..9]) && HexValue(n[7..9]) == answer[11]
      && AllHexDigits(n[9..11]) && HexValue(n[9..11]) == answer[10]
  {
    IdentificationFields(answer, confOrigSwEquivalent);
    var n := DecodeIdentification(answer, confOrigSwEquivalent).value.name;
    var h1, h0 := HexFixed(answer[11], 2), HexFixed(answer[10], 2);
    assert n == "GT120B-" + h1 + h0;
    assert n[7..9] == h1;
    assert n[9..11] == h0;
    HexByteRoundTrip(answer[11]);
    HexByteRoundTrip(answer[10]);
  }

  /** Dropping the low two bytes of a little-endian integer divides it by 2^16. */
  lemma LeDropLow2(s: seq<byte>)
    requires |s| >= 2
    ensures LeValue(s) / 0x1_0000 == LeValue(s[2..])
  {
    var t := s[1..];
    assert t[1..] == s[2..];
    var lo: int := s[0] + 256 * (s[1] as int);
    assert LeValue(s) == lo + 0x1_0000 * LeValue(s[2..]);
    DivModUnique(LeValue(s), 0x1_0000, LeValue(s[2..]), lo);
  }

  /** `cmd_identification` */
  method CmdIdentification(comm: CommBulk, confOrigSwEquivalent: bool) returns (r: Result<Identification>)
    modifies comm.intf
    ensures r == Decoded(old(Exchange(comm.intf, IDENTIFICATION_COMMAND)),
                         a => DecodeIdentification(a, confOrigSwEquivalent))
    ensures comm.intf.sent == old(comm.intf.sent) + [CommandFrame(IDENTIFICATION_COMMAND)]
    ensures comm.intf.served == old(comm.intf.served)
    ensures comm.intf.boots == old(comm.intf.boots)
  {
    var command := IDENTIFICATION_COMMAND;
    assert !IsReadFrame(CommandFrame(command));
    var answer :- comm.SimpleCmdReturn(command);
    r := DecodeIdentification(answer, confOrigSwEquivalent);
  }

  // ---------------------------------------------------------------------- count

  /** `calculate_offset_from_count` (and `calculate_out` of
      tmp/offset-calculation/calc.rs, which is the same expression) in u32
      arithmetic: a left shift drops the bits above 32, `+` must not overflow. The
      shifts never wrap for byte inputs. */
  function CalculateOffsetFromCount(b: byte, c: byte): (r: nat)
    ensures r == 0x1000 * (8 * b + c / 32 + 1)
    ensures r < U32_LIMIT
  {
    var outShifted := (b * 8) % U32_LIMIT + c / 32 + 1;
    (outShifted * 0x1000) % U32_LIMIT
  }

  /** The answer check of `cmd_count`: only the length is checked; byte 0 is unused. */
  function DecodeCount(answer: seq<byte>): (r: Result<nat>)
    ensures r.Ok? <==> |answer| == 3
    ensures r.Err? ==> r.error == UnexpectedAnswer(answer)
    ensures r.Ok? ==> r.value == CalculateOffsetFromCount(answer[1], answer[2])
  {
    if |answer| != 3 then Err(UnexpectedAnswer(answer))
    else Ok(CalculateOffsetFromCount(answer[1], answer[2]))
  }

  /** `cmd_count` */
  method CmdCount(comm: CommBulk) returns (r: Result<nat>)
    modifies comm.intf
    ensures r == Decoded(old(Exchange(comm.intf, COUNT_COMMAND)), DecodeCount)
    ensures comm.intf.sent == old(comm.intf.sent) + [CommandFrame(COUNT_COMMAND)]
    ensures comm.intf.served == old(comm.intf.served)
    ensures comm.intf.boots == old(comm.intf.boots)
  {
    var command := COUNT_COMMAND;
    assert !IsReadFrame(CommandFrame(command));
    var answer :- comm.SimpleCmdReturn(command);
    r := DecodeCount(answer);
  }

  // ------------------------------------------------------------------- set time

  /** `93 09`, the 8 little-endian bytes of the time in microseconds and the low 5
      little-endian bytes of the time in whole seconds. */
  function SetTimeCommand(timeUs: u64): (c: seq<byte>)
    ensures |c| == 15
  {
    SET_TIME_PREFIX + LeBytes(timeUs, 8) + LeBytes(timeUs / 1000000, 5)
  }

  /** Reading the fields back: the microseconds survive whole, the seconds modulo
      2^40. */
  lemma SetTimeFields(timeUs: u64)
    ensures var c := SetTimeCommand(timeUs);
      && c[..2] == SET_TIME_PREFIX
      && LeValue(c[2..10]) == timeUs
      && LeValue(c[10..15]) == (timeUs / 1000000) % 0x100_0000_0000
  {
    var c := SetTimeCommand(timeUs);
    assert c[2..10] == LeBytes(timeUs, 8);
    assert c[10..15] == LeBytes(timeUs / 1000000, 5);
    LeRoundTrip(timeUs, 8);
    LeRoundTrip(timeUs / 1000000, 5);
    assert Pow256(8) == U64_LIMIT;
    assert Pow256(5) == 0x100_0000_0000;
    DivModUnique(timeUs as nat, U64_LIMIT, 0, timeUs as nat);
  }

  /** `cmd_set_time`: the answer payload must be empty. */
  method CmdSetTime(comm: CommBulk, timeUs: u64) returns (r: Result<()>)
    modifies comm.intf
    ensures r.Ok? <==> old(Exchange(comm.intf, SetTimeCommand(timeUs))) == Ok([])
    ensures r == EqAnswer(old(Exchange(comm.intf, SetTimeCommand(timeUs))), [])
    ensures comm.intf.sent == old(comm.intf.sent) + [CommandFrame(SetTimeCommand(timeUs))]
    ensures comm.intf.served == old(comm.intf.served)
    ensures comm.intf.boots == old(comm.intf.boots)
  {
    var command := SET_TIME_PREFIX;
    var timeS := timeUs / 1000000;
    command := command + LeBytes(timeUs, 8);
    command := command + LeBytes(timeS, 5);
    assert !IsReadFrame(CommandFrame(command));
    r := comm.SimpleCmdEqResult(command, []);
  }

  // ----------------------------------------------------------------------- read

  /** `93 05 07`, the size as big-endian u16, `04 03` and bytes 1..4 of the
      big-endian u32 position, i.e. the position modulo 2^24. */
  function ReadCommand(pos: nat, size: nat): (c: seq<byte>)
    requires pos < U32_LIMIT && size < U16_LIMIT
    ensures |c| == 10
  {
    READ_PREFIX + BeBytes(size, 2) + [0x04, 0x03] + BeBytes(pos, 4)[1..4]
  }

  /** The big-endian bytes after the most significant one are the shorter encoding. */
  lemma {:induction false} BeBytesTail(x: nat, n: nat)
    ensures BeBytes(x, n + 1)[1..] == BeBytes(x, n)
  {
    if n > 0 {
      BeBytesTail(x / 256, n - 1);
      assert BeBytes(x, n + 1) == BeBytes(x / 256, n) + [x % 256];
      assert BeBytes(x, n) == BeBytes(x / 256, n - 1) + [x % 256];
    }
  }

  /** The padded read request is a read frame the device decodes to the position
      modulo 2^24 and the size. */
  lemma ReadCommandDecodes(pos: nat, size: nat)
    requires pos < U32_LIMIT && size < U16_LIMIT
    ensures IsReadFrame(CommandFrame(ReadCommand(pos, size)))
    ensures ReadOf(CommandFrame(ReadCommand(pos, size))) == ReadReq(pos % 0x100_0000, size)
  {
    var c := ReadCommand(pos, size);
    var f := CommandFrame(c);
    assert f[..10] == c;
    assert f[3..5] == c[3..5] == BeBytes(size, 2);
    assert f[7..10] == c[7..10] == BeBytes(pos, 4)[1..4];
    BeBytesTail(pos, 3);
    assert BeBytes(pos, 4)[1..4] == BeBytes(pos, 4)[1..];
    BeRoundTrip(size, 2);
    BeRoundTrip(pos, 3);
    assert Pow256(3) == MEM_SPAN;
  }

  /** The answer check of `cmd_read`: the payload must have the requested size. */
  function ReadPayload(answer: seq<byte>, size: nat): (r: Result<seq<byte>>)
    ensures r.Ok? <==> |answer| == size
    ensures r.Ok? ==> r.value == answer
    ensures r.Err? ==> r.error == UnexpectedAnswer(answer)
  {
    if |answer| != size then Err(UnexpectedAnswer(answer)) else Ok(answer)
  }

  /** The answers `cmd_read` accepts for a read of `size` bytes are exactly the
      answer frames around a payload of that size. Every other answer — wrong
      prefix, checksum or declared length, or a payload of another size — is an
      error. */
  lemma ReadAnswerExact(answer: seq<byte>, size: nat)
    ensures var r := Decoded(VerifyAnswer(answer), a => ReadPayload(a, size));
            && (r.Ok? ==> |r.value| == size < U16_LIMIT && answer == AnswerFrame(r.value))
            && (r.Ok? <==> size < U16_LIMIT && |answer| == size + 4 && answer == AnswerFrame(answer[3..size + 3]))
  {
    var r := Decoded(VerifyAnswer(answer), a => ReadPayload(a, size));
    if r.Ok? {
      AnswerUnique(answer);
    } else if size < U16_LIMIT && |answer| == size + 4 && answer == AnswerFrame(answer[3..size + 3]) {
      AnswerRoundTrip(answer[3..size + 3]);
      assert false;
    }
  }

  /** Against the model's device, a read request yields exactly the device memory
      from the position modulo 2^24. */
  lemma ReadExchange(d: Device, pos: nat, size: nat)
    requires pos < U32_LIMIT && size < U16_LIMIT
    ensures Decoded(Exchange(d, ReadCommand(pos, size)), a => ReadPayload(a, size)) ==
            Ok(MemSlice(d.mem, pos % 0x100_0000, size))
  {
    ReadCommandDecodes(pos, size);
    AnswerRoundTrip(MemSlice(d.mem, pos % 0x100_0000, size));
  }

  /** `cmd_read`: the request frame, and the payload of the answer checked for the
      requested size (`ReadExchange` shows the device's answer always passes). */
  method CmdRead(comm: CommBulk, pos: nat, size: nat) returns (r: Result<seq<byte>>)
    requires pos < U32_LIMIT && size < U16_LIMIT
    modifies comm.intf
    ensures r == Ok(MemSlice(comm.intf.mem, pos % 0x100_0000, size))
    ensures comm.intf.sent == old(comm.intf.sent) + [CommandFrame(ReadCommand(pos, size))]
    ensures comm.intf.served == old(comm.intf.served) + [ReadReq(pos % 0x100_0000, size)]
    ensures comm.intf.boots == old(comm.intf.boots)
  {
    ReadExchange(comm.intf, pos, size);
    ReadCommandDecodes(pos, size);
    var command := READ_PREFIX;
    command := command + BeBytes(size, 2);
    command := command + [0x04];
    command := command + [0x03];
    command := command + BeBytes(pos, 4)[1..4];
    assert command == ReadCommand(pos, size);
    // The device answers every read frame, so the exchange cannot fail here.
    var answer := comm.SimpleCmdReturn(command);
    assert answer.Ok?;
    r := ReadPayload(answer.value, size);
  }

  // -------------------------------------------------------------- delete/reboot

  /** `cmd_delete_reboot`: sent one-way; the device reboots and nothing is read. */
  method CmdDeleteReboot(comm: CommBulk)
    modifies comm.intf
    ensures comm.intf.sent == old(comm.intf.sent) + [CommandFrame(DELETE_REBOOT_COMMAND)]
    ensures comm.intf.served == old(comm.intf.served)
    ensures comm.intf.boots == old(comm.intf.boots) + 1
  {
    var r := comm.SimpleCmdOnewayDeviceReset(DELETE_REBOOT_COMMAND);
  }
}
