/** The USB bulk transport (src/intf_bulk.rs) without the USB stack: the
    fragments the device delivers, the device lists successive scans find and the
    sleeps between them are fields of the transport, so that what remains is the
    reassembly of an answer from fragments, the reconnect back-off, the
    "same bus, different address" device match and the id update after a reset. */
module IntfBulk {
  import opened Common

  const DEVID_VENDOR: nat := 0x0df7
  const DEVID_PRODUCT: nat := 0x0920
  /** The bus id that disables the device filter. */
  const NO_FILTER: byte := 0xFF

  /** What a USB scan reports about one device. */
  datatype DeviceInfo = DeviceInfo(vendor: nat, product: nat, bus: byte, address: byte)

  // ----------------------------------------------------------- device match

  /** `match_partially_last_device`: with the bus filter 0xFF every device matches;
      otherwise a device matches when it is on the same bus at another address,
      which is how the device comes back after its reboot. */
  predicate MatchPartiallyLastDevice(d: DeviceInfo, busId: byte, deviceId: byte)
  {
    busId == NO_FILTER || (d.bus == busId && d.address != deviceId)
  }

  /** With a filter, the device that was last seen never matches, and a device on
      another bus never matches either. */
  lemma MatchExcludes(d: DeviceInfo, busId: byte, deviceId: byte)
    requires busId != NO_FILTER
    ensures d.bus == busId && d.address == deviceId ==> !MatchPartiallyLastDevice(d, busId, deviceId)
    ensures d.bus != busId ==> !MatchPartiallyLastDevice(d, busId, deviceId)
  {
  }

  /** The scan's `find`: a GT-120 (vendor 0x0DF7, product 0x0920) that passes the
      match. */
  predicate Wanted(d: DeviceInfo, busId: byte, deviceId: byte)
  {
    d.vendor == DEVID_VENDOR && d.product == DEVID_PRODUCT && MatchPartiallyLastDevice(d, busId, deviceId)
  }

  /** `list_devices().find(..)`: the first wanted device of a scan. */
  function FindDevice(devices: seq<DeviceInfo>, busId: byte, deviceId: byte): (r: Option<DeviceInfo>)
    ensures r.Some? ==> r.value in devices && Wanted(r.value, busId, deviceId)
    ensures r.Some? ==> exists k :: 0 <= k < |devices| && devices[k] == r.value &&
                                    forall j :: 0 <= j < k ==> !Wanted(devices[j], busId, deviceId)
    ensures r.None? <==> forall j :: 0 <= j < |devices| ==> !Wanted(devices[j], busId, deviceId)
  {
    if devices == [] then None
    else if Wanted(devices[0], busId, deviceId) then Some(devices[0])
    else
      var r := FindDevice(devices[1..], busId, deviceId);
      assert forall j :: 1 <= j < |devices| ==> devices[j] == devices[1..][j - 1];
      r
  }

  // -------------------------------------------------------------- back-off

  /** The update of `sleep_time` after a sleep: capped to 3000 ms once above it,
      otherwise grown by half (integer division) while below it. */
  function NextSleep(t: nat): nat
  {
    if t > 3000 then 3000 else if t < 3000 then t * 3 / 2 else t
  }

  /** The `i`-th sleep of `wait_for_deviceinfo`, starting at 1000 ms. */
  function Backoff(i: nat): nat
  {
    if i == 0 then 1000 else NextSleep(Backoff(i - 1))
  }

  /** The first `n` sleeps. */
  function Backoffs(n: nat): (s: seq<nat>)
    ensures |s| == n
  {
    if n == 0 then [] else Backoffs(n - 1) + [Backoff(n - 1)]
  }

  /** The schedule is 1000, 1500, 2250, 3375 and then 3000 ms for ever. */
  lemma BackoffSchedule(i: nat)
    ensures Backoff(0) == 1000 && Backoff(1) == 1500 && Backoff(2) == 2250 && Backoff(3) == 3375
    ensures i >= 4 ==> Backoff(i) == 3000
  {
    SteadyBackoff(i);
  }

  lemma {:induction false} SteadyBackoff(i: nat)
    ensures i >= 4 ==> Backoff(i) == 3000
  {
    if i > 4 {
      SteadyBackoff(i - 1);
    }
  }

  /** Every sleep lies between 1000 and 3375 ms. */
  lemma BackoffBounds(i: nat)
    ensures 1000 <= Backoff(i) <= 3375
  {
    BackoffSchedule(i);
    assert i < 4 ==> i == 0 || i == 1 || i == 2 || i == 3;
  }

  // ---------------------------------------------------------- reassembly

  /** The fragments `frags[k..]` appended to `acc` until it holds at least `need`
      bytes: the answer and the number of fragments used, or a failure when the
      fragments run out. */
  function Gather(frags: seq<seq<byte>>, k: nat, acc: seq<byte>, need: nat): (r: Result<(seq<byte>, nat)>)
    requires k <= |frags|
    ensures r.Ok? ==> k <= r.value.1 <= |frags|
    decreases |frags| - k
  {
    if |acc| >= need then Ok((acc, k))
    else if k == |frags| then Err(TransfersExhausted)
    else Gather(frags, k + 1, acc + frags[k], need)
  }

  /** The declared payload size of an answer: the big-endian u16 at bytes 1..3. */
  function Declared(first: seq<byte>): nat
    requires |first| >= 3
  {
    BeValue(first[1..3])
  }

  /** The reassembly in `send_and_receive` over the fragments the device delivers,
      in order: the answer and the number of fragments it took. */
  function Reassemble(frags: seq<seq<byte>>): (r: Result<(seq<byte>, nat)>)
    ensures r.Ok? ==> 1 <= r.value.1 <= |frags|
  {
    if frags == [] then Err(TransfersExhausted)
    else if |frags[0]| < 3 then Err(FragmentTooShort(|frags[0]|))
    else Gather(frags, 1, frags[0], Declared(frags[0]) + 4)
  }

  /** The parts of a prefix of the fragments. */
  lemma ConcatPrefix(frags: seq<seq<byte>>, k: nat)
    requires k < |frags|
    ensures Concat(frags[..k + 1]) == Concat(frags[..k]) + frags[k]
  {
    assert frags[..k + 1][..k] == frags[..k];
  }

  /** Gathering takes the shortest prefix of the fragments that holds `need`
      bytes. */
  lemma {:induction false} GatherSpec(frags: seq<seq<byte>>, k: nat, need: nat)
    requires 1 <= k <= |frags| && |Concat(frags[..k - 1])| < need
    ensures var g := Gather(frags, k, Concat(frags[..k]), need);
            && (g.Ok? ==> k <= g.value.1 <= |frags| && g.value.0 == Concat(frags[..g.value.1]))
            && (g.Ok? ==> need <= |g.value.0| && |Concat(frags[..g.value.1 - 1])| < need)
            && (g.Err? <==> |Concat(frags)| < need)
    decreases |frags| - k
  {
    if |Concat(frags[..k])| < need {
      if k == |frags| {
        assert frags[..k] == frags;
      } else {
        ConcatPrefix(frags, k);
        GatherSpec(frags, k + 1, need);
      }
    } else {
      if k < |frags| {
        PrefixLonger(frags, k, |frags|);
      } else {
        assert frags[..k] == frags;
      }
    }
  }

  /** A longer prefix of the fragments holds at least as many bytes. */
  lemma {:induction false} PrefixLonger(frags: seq<seq<byte>>, k: nat, m: nat)
    requires k <= m <= |frags|
    ensures |Concat(frags[..k])| <= |Concat(frags[..m])|
    ensures m == |frags| ==> frags[..m] == frags
    decreases m - k
  {
    if k < m {
      ConcatPrefix(frags, k);
      PrefixLonger(frags, k + 1, m);
    }
  }

  /** What reassembly does, stated on the fragments: the answer is the shortest
      prefix of the fragments, joined, that holds the declared size plus the four
      bytes of prefix, size and checksum; no fragment after it is used. */
  lemma ReassembleSpec(frags: seq<seq<byte>>)
    requires frags != [] && |frags[0]| >= 3
    ensures var r := Reassemble(frags);
            var need := Declared(frags[0]) + 4;
            && (r.Ok? ==> 1 <= r.value.1 <= |frags| && r.value.0 == Concat(frags[..r.value.1]))
            && (r.Ok? ==> need <= |r.value.0| && (r.value.1 == 1 || |Concat(frags[..r.value.1 - 1])| < need))
            && (r.Err? <==> |Concat(frags)| < need)
  {
    var need := Declared(frags[0]) + 4;
    assert frags[..0] == [];
    ConcatPrefix(frags, 0);
    assert Concat(frags[..1]) == frags[0];
    if |frags[0]| < need {
      GatherSpec(frags, 1, need);
    } else {
      PrefixLonger(frags, 1, |frags|);
    }
  }

  /** However a frame of declared size plus four bytes is split into fragments
      (the first holding at least the three bytes of prefix and size), reassembly
      gives back exactly that frame, whatever fragments follow it. */
  lemma ReassembleSplit(fs: seq<seq<byte>>, rest: seq<seq<byte>>)
    requires fs != [] && |fs[0]| >= 3 && |Concat(fs)| == Declared(fs[0]) + 4
    ensures Reassemble(fs + rest).Ok? && Reassemble(fs + rest).value.0 == Concat(fs)
  {
    var frags := fs + rest;
    assert frags[0] == fs[0];
    assert frags[..|fs|] == fs;
    ReassemblePrefix(frags, |fs|);
  }

  /** When the first n fragments hold exactly the declared size plus four bytes,
      reassembly joins exactly those n fragments. */
  lemma ReassemblePrefix(frags: seq<seq<byte>>, n: nat)
    requires 1 <= n <= |frags| && |frags[0]| >= 3
    requires |Concat(frags[..n])| == Declared(frags[0]) + 4
    ensures Reassemble(frags).Ok? && Reassemble(frags).value.0 == Concat(frags[..n])
  {
    PrefixLonger(frags, n, |frags|);
    ReassembleSpec(frags);
    var r := Reassemble(frags);
    ShortestPrefix(frags, n, r.value.1, Declared(frags[0]) + 4);
  }

  /** When the first n fragments hold exactly `need` bytes, the shortest prefix
      holding `need` bytes is those n fragments. */
  lemma ShortestPrefix(frags: seq<seq<byte>>, n: nat, k: nat, need: nat)
    requires 1 <= n <= |frags| && 1 <= k <= |frags| && |Concat(frags[..n])| == need
    requires need <= |Concat(frags[..k])| && (k == 1 || |Concat(frags[..k - 1])| < need)
    ensures Concat(frags[..k]) == Concat(frags[..n])
  {
    if k > n {
      PrefixLonger(frags, n, k - 1);
      assert false;
    }
    PrefixLonger(frags, k, n);
    PrefixOfConcat(frags, k, n);
  }

  /** The join of a shorter prefix is a prefix of the join of a longer one. */
  lemma {:induction false} PrefixOfConcat(frags: seq<seq<byte>>, k: nat, m: nat)
    requires k <= m <= |frags|
    ensures |Concat(frags[..k])| <= |Concat(frags[..m])|
    ensures Concat(frags[..k]) == Concat(frags[..m])[..|Concat(frags[..k])|]
    decreases m - k
  {
    PrefixLonger(frags, k, m);
    if k < m {
      ConcatPrefix(frags, k);
      PrefixOfConcat(frags, k + 1, m);
      PrefixLonger(frags, k + 1, m);
    }
  }

  // -------------------------------------------------------------- transport

  /** The transfers of the next exchange's queue: none when no exchange is left. */
  function QueueOf(deliveries: seq<seq<seq<byte>>>): seq<seq<byte>>
  {
    if deliveries == [] then [] else deliveries[0]
  }

  /** The deliveries after the next exchange. */
  function Later(deliveries: seq<seq<seq<byte>>>): seq<seq<seq<byte>>>
  {
    if deliveries == [] then [] else deliveries[1..]
  }

  class IntfBulk {
    /** For each exchange still to come, the transfers that complete in the queue
        `send_and_receive` opens for it, in arrival order. */
    var deliveries: seq<seq<seq<byte>>>
    /** The frames written to the bulk-out endpoint. */
    var outgoing: seq<seq<byte>>
    /** The device lists the coming USB scans find. */
    var scans: seq<seq<DeviceInfo>>
    /** The sleeps made while waiting for a device, in milliseconds. */
    var sleeps: seq<nat>
    var busId: byte
    var deviceId: byte

    constructor Init(deliveries: seq<seq<seq<byte>>>, scans: seq<seq<DeviceInfo>>)
      ensures this.deliveries == deliveries && this.scans == scans
      ensures outgoing == [] && sleeps == [] && busId == NO_FILTER && deviceId == NO_FILTER
    {
      this.deliveries := deliveries;
      this.scans := scans;
      outgoing := [];
      sleeps := [];
      busId := NO_FILTER;
      deviceId := NO_FILTER;
    }

    /** `read_answer`: the next completed transfer of the queue. */
    method ReadAnswer(queue: seq<seq<byte>>) returns (r: Result<seq<byte>>, rest: seq<seq<byte>>)
      ensures queue == [] ==> r == Err(TransfersExhausted) && rest == []
      ensures queue != [] ==> r == Ok(queue[0]) && rest == queue[1..] && queue == [r.value] + rest
    {
      if queue == [] {
        return Err(TransfersExhausted), [];
      }
      r, rest := Ok(queue[0]), queue[1..];
    }

    /** `send_and_receive`: open a fresh queue, write the frame, then read
        transfers until the answer holds its declared size plus four bytes. The
        queue is dropped on return, and with it every transfer the answer did not
        need. */
    method SendAndReceive(toDevice: seq<byte>) returns (r: Result<seq<byte>>)
      modifies this
      ensures outgoing == old(outgoing) + [toDevice]
      ensures deliveries == Later(old(deliveries))
      ensures var a := Reassemble(QueueOf(old(deliveries)));
              && (a.Err? ==> r == Err(a.error))
              && (a.Ok? ==> r == Ok(a.value.0))
      ensures scans == old(scans) && sleeps == old(sleeps) && busId == old(busId) && deviceId == old(deviceId)
    {
      var queue := QueueOf(deliveries);
      deliveries := Later(deliveries);
      ghost var frags := queue;
      outgoing := outgoing + [toDevice];
      var first;
      first, queue := ReadAnswer(queue);
      if first.Err? {
        return Err(first.error);
      }
      var answer := first.value;
      if |answer| < 3 {
        return Err(FragmentTooShort(|answer|));
      }
      var need := BeValue(answer[1..3]) + 4;
      ghost var k: nat := 1;
      while |answer| < need
        invariant 1 <= k <= |frags| && queue == frags[k..]
        invariant Reassemble(frags) == Gather(frags, k, answer, need)
        invariant outgoing == old(outgoing) + [toDevice] && deliveries == Later(old(deliveries))
        invariant scans == old(scans) && sleeps == old(sleeps) && busId == old(busId) && deviceId == old(deviceId)
        decreases |queue|
      {
        var more;
        more, queue := ReadAnswer(queue);
        if more.Err? {
          return Err(more.error);
        }
        assert more.value == frags[k];
        answer := answer + more.value;
        k := k + 1;
      }
      r := Ok(answer);
    }

    /** `wait_for_deviceinfo`: scan until a wanted device shows up, sleeping by the
        back-off schedule between scans when `wait`, failing at the first miss
        otherwise. `misses` is the number of scans that found nothing. */
    method WaitForDeviceInfo(wait: bool, bus: byte, dev: byte) returns (r: Result<DeviceInfo>, ghost misses: nat)
      modifies this
      ensures misses <= |old(scans)|
      ensures r.Err? ==> scans == old(scans)[misses..]
      ensures forall j :: 0 <= j < misses ==> FindDevice(old(scans)[j], bus, dev).None?
      ensures r.Ok? ==> misses < |old(scans)| && scans == old(scans)[misses + 1..] &&
                        FindDevice(old(scans)[misses], bus, dev) == Some(r.value)
      ensures r.Ok? ==> Wanted(r.value, bus, dev)
      ensures wait ==> sleeps == old(sleeps) + Backoffs(misses)
      ensures wait && r.Err? ==> r.error == ScansExhausted && misses == |old(scans)| && scans == []
      ensures !wait ==> sleeps == old(sleeps) && misses <= 1
      ensures !wait && r.Ok? ==> misses == 0
      ensures !wait && r.Err? ==> if old(scans) == [] then r.error == ScansExhausted
                                  else r.error == DeviceNotFound && misses == 1
      ensures deliveries == old(deliveries) && outgoing == old(outgoing)
      ensures busId == old(busId) && deviceId == old(deviceId)
    {
      ghost var all := scans;
      var sleepTime := 1000;
      misses := 0;
      while true
        invariant misses <= |all| && scans == all[misses..]
        invariant forall j :: 0 <= j < misses ==> FindDevice(all[j], bus, dev).None?
        invariant wait ==> sleeps == old(sleeps) + Backoffs(misses) && sleepTime == Backoff(misses)
        invariant !wait ==> sleeps == old(sleeps) && misses == 0
        invariant deliveries == old(deliveries) && outgoing == old(outgoing)
        invariant busId == old(busId) && deviceId == old(deviceId)
        decreases |scans|
      {
        if scans == [] {
          return Err(ScansExhausted), misses;
        }
        var found := FindDevice(scans[0], bus, dev);
        assert scans[0] == all[misses];
        scans := scans[1..];
        if found.Some? {
          return Ok(found.value), misses;
        }
        misses := misses + 1;
        if wait {
          sleeps := sleeps + [sleepTime];
          sleepTime := NextSleep(sleepTime);
        } else {
          return Err(DeviceNotFound), misses;
        }
      }
    }

    /** `cmd_oneway_devicereset`: write the frame, wait for the device to come back
        on the same bus at another address, and keep its bus and address. */
    method CmdOnewayDeviceReset(toDevice: seq<byte>) returns (r: Result<()>, ghost found: DeviceInfo)
      modifies this
      ensures outgoing == old(outgoing) + [toDevice]
      ensures r.Ok? ==> Wanted(found, old(busId), old(deviceId)) && busId == found.bus && deviceId == found.address
      ensures r.Ok? && old(busId) != NO_FILTER ==> busId == old(busId) && deviceId != old(deviceId)
      ensures r.Err? ==> busId == old(busId) && deviceId == old(deviceId)
      ensures deliveries == old(deliveries)
    {
      found := DeviceInfo(0, 0, 0, 0);
      outgoing := outgoing + [toDevice];
      var d, misses := WaitForDeviceInfo(true, busId, deviceId);
      if d.Err? {
        return Err(d.error), found;
      }
      found := d.value;
      busId := d.value.bus;
      deviceId := d.value.address;
      r := Ok(());
    }
  }

  /** `IntfBulk::new`: the first GT-120 of the first scan, with no filter and no
      waiting. */
  method New(deliveries: seq<seq<seq<byte>>>, scans: seq<seq<DeviceInfo>>) returns (r: Result<IntfBulk>)
    ensures scans == [] ==> r.Err?
    ensures scans != [] ==> (r.Ok? <==> FindDevice(scans[0], NO_FILTER, NO_FILTER).Some?)
    ensures r.Ok? ==> fresh(r.value) && r.value.deliveries == deliveries && r.value.scans == scans[1..] &&
                      r.value.outgoing == [] && r.value.sleeps == [] &&
                      var d := FindDevice(scans[0], NO_FILTER, NO_FILTER).value;
                      r.value.busId == d.bus && r.value.deviceId == d.address
  {
    var intf := new IntfBulk.Init(deliveries, scans);
    var d, misses := intf.WaitForDeviceInfo(false, NO_FILTER, NO_FILTER);
    if d.Err? {
      return Err(d.error);
    }
    intf.busId := d.value.bus;
    intf.deviceId := d.value.address;
    r := Ok(intf);
  }
}
