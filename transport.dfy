/** The transport behind the `Intf` interface of src/intf.rs, as seen from the
    command layer: something that takes a 16-byte frame and gives back an answer,
    takes a one-way frame after which the device reboots, and has a microsecond
    clock. The model's device answers every memory-read frame from an abstract
    memory (address to byte; an address never written reads 0xFF, as erased flash)
    and every other frame through an abstract reply function of the frame and of every
    frame received before it, so the device may change its answers over time. It
    records every frame and every read it serves. */
module Transport {
  import opened Common
  import Framing

  /** `cmd_read` sends 24-bit addresses. */
  const MEM_SPAN: nat := 0x100_0000

  /** A memory read as the device sees it: a 24-bit position and a size. */
  datatype ReadReq = ReadReq(pos: nat, size: nat)

  /** The padded read-request frame `93 05 07 sz sz 04 03 p p p ...`. */
  predicate IsReadFrame(f: seq<byte>)
  {
    |f| == Framing.FRAME_LEN && f[0] == 0x93 && f[1] == 0x05 && f[2] == 0x07 &&
    f[5] == 0x04 && f[6] == 0x03
  }

  /** The position and size that a read-request frame asks for. */
  function ReadOf(f: seq<byte>): (q: ReadReq)
    requires IsReadFrame(f)
    ensures q.size < U16_LIMIT && q.pos < MEM_SPAN
  {
    BeValue2(f[3..5]);
    assert BeValue(f[7..10]) < MEM_SPAN by {
      assert f[7..10][..2] == f[7..9];
      BeValue2(f[7..9]);
    }
    ReadReq(BeValue(f[7..10]), BeValue(f[3..5]))
  }

  /** The reads that serving frame `f` adds to the device's log. */
  function ReadsOf(f: seq<byte>): seq<ReadReq>
  {
    if IsReadFrame(f) then [ReadOf(f)] else []
  }

  function MemAt(mem: map<int, byte>, addr: int): byte
  {
    if addr in mem then mem[addr] else 0xFF
  }

  /** The `size` bytes of memory from `pos` on. */
  function MemSlice(mem: map<int, byte>, pos: nat, size: nat): (r: seq<byte>)
    ensures |r| == size
    ensures forall k :: 0 <= k < size ==> r[k] == MemAt(mem, pos + k)
  {
    seq<byte>(size, k => MemAt(mem, pos + k))
  }

  /** The raw answer device `d` gives to frame `f` after having received the frames
      `history`. */
  function AnswerAfter(d: Device, history: seq<seq<byte>>, f: seq<byte>): seq<byte>
  {
    if IsReadFrame(f) then
      var q := ReadOf(f);
      Framing.AnswerFrame(MemSlice(d.mem, q.pos, q.size))
    else d.reply(history, f)
  }

  class Device {
    /** The device's record memory. */
    const mem: map<int, byte>
    /** The raw answer to a frame that is not a memory read, given every frame sent
        before it. */
    const reply: (seq<seq<byte>>, seq<byte>) -> seq<byte>
    /** The value `get_time_micros` reports. */
    const clockMicros: u64
    /** How many one-way (reboot) frames the device has received. */
    var boots: nat
    /** Every frame sent to the device, in order. */
    var sent: seq<seq<byte>>
    /** Every memory read the device has served, in order. */
    var served: seq<ReadReq>

    constructor (mem: map<int, byte>, reply: (seq<seq<byte>>, seq<byte>) -> seq<byte>, clockMicros: u64)
      ensures this.mem == mem && this.reply == reply && this.clockMicros == clockMicros
      ensures boots == 0 && sent == [] && served == []
    {
      this.mem := mem;
      this.reply := reply;
      this.clockMicros := clockMicros;
      boots := 0;
      sent := [];
      served := [];
    }

    /** The raw answer the device gives to frame `f` in its present state. */
    function AnswerTo(f: seq<byte>): seq<byte>
      reads this
    {
      AnswerAfter(this, sent, f)
    }

    /** `Intf::send_and_receive` */
    method SendAndReceive(toDevice: seq<byte>) returns (answer: seq<byte>)
      modifies this
      ensures answer == old(AnswerTo(toDevice))
      ensures sent == old(sent) + [toDevice]
      ensures served == old(served) + ReadsOf(toDevice)
      ensures boots == old(boots)
    {
      answer := AnswerTo(toDevice);
      sent := sent + [toDevice];
      served := served + ReadsOf(toDevice);
    }

    /** `Intf::cmd_oneway_devicereset`: the frame is sent, no answer is read, and the
        device reboots. */
    method CmdOnewayDeviceReset(toDevice: seq<byte>)
      modifies this
      ensures sent == old(sent) + [toDevice]
      ensures served == old(served)
      ensures boots == old(boots) + 1
    {
      sent := sent + [toDevice];
      boots := boots + 1;
    }
  }
}
