/** `CommBulk` of src/comm_bulk.rs: one exchange with the device, framed by the
    codec of module Framing. */
module Comm {
  import opened Common
  import opened Framing
  import opened Transport

  /** The payload that the device's answer to command `cmd`, after the frames
      `history`, verifies to. */
  function ExchangeAfter(d: Device, history: seq<seq<byte>>, cmd: seq<byte>): Result<seq<byte>>
    requires |cmd| < FRAME_LEN
  {
    VerifyAnswer(AnswerAfter(d, history, CommandFrame(cmd)))
  }

  /** The payload that the device's answer to command `cmd` verifies to now. */
  function Exchange(d: Device, cmd: seq<byte>): Result<seq<byte>>
    requires |cmd| < FRAME_LEN
    reads d
  {
    ExchangeAfter(d, d.sent, cmd)
  }

  /** The outcome of `simple_cmd_eqresult` for the exchange `e`. */
  function EqAnswer(e: Result<seq<byte>>, expected: seq<byte>): (r: Result<()>)
    ensures r.Ok? <==> e == Ok(expected)
  {
    if e.Err? then Err(e.error) else CheckFullAnswer(e.value, expected)
  }

  class CommBulk {
    const intf: Device

    constructor (intf: Device)
      ensures this.intf == intf
    {
      this.intf := intf;
    }

    /** `simple_cmd_return`: send the padded command, verify and unwrap the answer. */
    method SimpleCmdReturn(toDevice: seq<byte>) returns (r: Result<seq<byte>>)
      modifies intf
      ensures |toDevice| >= FRAME_LEN ==>
                r == Err(CommandTooLong(|toDevice|)) &&
                intf.sent == old(intf.sent) && intf.served == old(intf.served)
      ensures |toDevice| < FRAME_LEN ==>
                r == old(Exchange(intf, toDevice)) &&
                intf.sent == old(intf.sent) + [CommandFrame(toDevice)] &&
                intf.served == old(intf.served) + ReadsOf(CommandFrame(toDevice))
      ensures intf.boots == old(intf.boots)
    {
      var toDevicePadded := PadAndChecksum(toDevice);
      if toDevicePadded.Err? {
        return Err(toDevicePadded.error);
      }
      var answer := intf.SendAndReceive(toDevicePadded.value);
      r := VerifyAnswer(answer);
    }

    /** `simple_cmd_eqresult`: succeeds iff the unwrapped payload is `expectFromDevice`. */
    method SimpleCmdEqResult(toDevice: seq<byte>, expectFromDevice: seq<byte>) returns (r: Result<()>)
      modifies intf
      ensures r.Ok? <==> |toDevice| < FRAME_LEN && old(Exchange(intf, toDevice)) == Ok(expectFromDevice)
      ensures |toDevice| < FRAME_LEN ==> r == EqAnswer(old(Exchange(intf, toDevice)), expectFromDevice)
      ensures |toDevice| >= FRAME_LEN ==> intf.sent == old(intf.sent) && intf.served == old(intf.served)
      ensures |toDevice| < FRAME_LEN ==>
                intf.sent == old(intf.sent) + [CommandFrame(toDevice)] &&
                intf.served == old(intf.served) + ReadsOf(CommandFrame(toDevice))
      ensures intf.boots == old(intf.boots)
    {
      var answer :- SimpleCmdReturn(toDevice);
      r := CheckFullAnswer(answer, expectFromDevice);
    }

    /** `simple_cmd_oneway_devicereset`: send the padded command and read nothing. */
    method SimpleCmdOnewayDeviceReset(toDevice: seq<byte>) returns (r: Result<()>)
      modifies intf
      ensures r.Ok? <==> |toDevice| < FRAME_LEN
      ensures r.Ok? ==> intf.sent == old(intf.sent) + [CommandFrame(toDevice)] &&
                        intf.boots == old(intf.boots) + 1
      ensures r.Err? ==> intf.sent == old(intf.sent) && intf.boots == old(intf.boots)
      ensures intf.served == old(intf.served)
    {
      var toDevicePadded :- PadAndChecksum(toDevice);
      intf.CmdOnewayDeviceReset(toDevicePadded);
      r := Ok(());
    }

    /** `get_time_micros` */
    function GetTimeMicros(): u64
      reads this
    {
      intf.clockMicros
    }
  }
}
