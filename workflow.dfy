/** The download workflow of src/gt120b_workflow.rs, run against the model's device:
    identify the device, check the slot and send the time, read the configuration,
    probe for the end of the recorded data, download the blocks into the data dump,
    export, and optionally delete and check the device again. Every panic and failed
    assertion of the source ends the run with an error. */
module Workflow {
  import opened Common
  import opened Framing
  import opened Transport
  import opened Comm
  import opened Commands
  import opened Records
  import Text

  /** The 8 bytes at 0x1FFF80 that the original software reads before and after. */
  const SLOT_POS: nat := 0x1f_ff80
  const SLOT_LEN: nat := 8
  /** The configuration block at address 0. */
  const CONFIG_LEN: nat := 0xea
  /** Memory is read in blocks of 0x1000 bytes: a probe of 0x100 and the rest. */
  const STEP: nat := 0x1000
  const PROBE_LEN: nat := 0x100
  const REST_LEN: nat := 0xf00
  /** The bulk download starts at the second block. */
  const FIRST_BLOCK: nat := 0x1000
  /** The extra read at the end of the last probed block. */
  const EXTRA_POS: nat := 0xf80
  const EXTRA_LEN: nat := 0x80

  // ------------------------------------------------------------ memory reads

  /** What `cmd_read(pos, size)` returns from the device memory (positions are
      sent as 24 bits). */
  function Bytes(mem: map<int, byte>, pos: nat, size: nat): seq<byte>
  {
    MemSlice(mem, pos % 0x100_0000, size)
  }

  /** The read that `cmd_read(pos, size)` makes the device serve. */
  function Read(pos: nat, size: nat): ReadReq
  {
    ReadReq(pos % 0x100_0000, size)
  }

  /** Every byte is 0xFF, as in erased flash. */
  predicate IsErased(s: seq<byte>)
  {
    s == [] || (IsErased(s[..|s| - 1]) && s[|s| - 1] == 0xFF)
  }

  /** A sequence is erased exactly when it equals `vec![0xff; n]` of its length. */
  lemma {:induction false} IsErasedSpec(s: seq<byte>)
    ensures IsErased(s) <==> s == Erased(|s|)
  {
    if s != [] {
      var init := s[..|s| - 1];
      IsErasedSpec(init);
      assert s == init + [s[|s| - 1]];
      assert Erased(|s|) == Erased(|s| - 1) + [0xFF];
    }
  }

  /** The first 0x100 bytes of the block at `pos` are erased flash. */
  predicate ProbeEmpty(mem: map<int, byte>, pos: nat)
  {
    IsErased(Bytes(mem, pos, PROBE_LEN))
  }

  /** Block positions that are multiples of 0x1000 stay whole when reduced to 24
      bits, so the reads at `p + c` with `c < 0x1000` are `c` bytes further on. */
  lemma BlockOffset(m: nat, c: nat)
    requires c < STEP
    ensures (0x1000 * m + c) % 0x100_0000 == (0x1000 * m) % 0x100_0000 + c
  {
    var q, k := m / 4096, m % 4096;
    assert 0x1000 * m == MEM_SPAN * q + 0x1000 * k;
    DivModUnique(0x1000 * m, MEM_SPAN, q, 0x1000 * k);
    DivModUnique(0x1000 * m + c, MEM_SPAN, q, 0x1000 * k + c);
  }

  lemma SliceJoin(mem: map<int, byte>, p: nat, a: nat, b: nat)
    ensures MemSlice(mem, p, a) + MemSlice(mem, p + a, b) == MemSlice(mem, p, a + b)
  {
  }

  lemma AppendAssoc<T>(a: seq<T>, b: seq<T>, c: seq<T>)
    ensures (a + b) + c == a + (b + c)
  {
  }

  // ---------------------------------------------------------------- doublet

  /** `cmdblock_read_doublet` succeeds without a dump: the probe is erased, or the
      second position does not overflow u32. */
  predicate DoubletFits(mem: map<int, byte>, pos: nat)
  {
    ProbeEmpty(mem, pos) || pos + PROBE_LEN < U32_LIMIT
  }

  /** `cmdblock_read_doublet` succeeds feeding a dump: the probe is erased, or the
      second position does not overflow u32 and the dump accepts both blocks. */
  predicate DoubletOk(mem: map<int, byte>, pos: nat)
  {
    ProbeEmpty(mem, pos) ||
    (pos + PROBE_LEN < U32_LIMIT &&
     Accepts(Bytes(mem, pos, PROBE_LEN)) && Accepts(Bytes(mem, pos + PROBE_LEN, REST_LEN)))
  }

  /** The reads of a doublet: the probe, and the rest of the block unless the
      probe is erased. */
  function DoubletReads(mem: map<int, byte>, pos: nat): seq<ReadReq>
  {
    if ProbeEmpty(mem, pos) then [Read(pos, PROBE_LEN)] else [Read(pos, PROBE_LEN), Read(pos + PROBE_LEN, REST_LEN)]
  }

  /** The blocks a doublet feeds to the dump: none for an erased probe. */
  function DoubletBlocks(mem: map<int, byte>, pos: nat): seq<seq<byte>>
  {
    if ProbeEmpty(mem, pos) then [] else [Bytes(mem, pos, PROBE_LEN), Bytes(mem, pos + PROBE_LEN, REST_LEN)]
  }

  /** The two reads of a non-empty doublet at a block boundary together are the
      whole 0x1000-byte block. */
  lemma DoubletCoversBlock(mem: map<int, byte>, m: nat)
    requires !ProbeEmpty(mem, 0x1000 * m)
    ensures Concat(DoubletBlocks(mem, 0x1000 * m)) == Bytes(mem, 0x1000 * m, STEP)
  {
    var p := 0x1000 * m;
    BlockOffset(m, PROBE_LEN);
    var bs := DoubletBlocks(mem, p);
    assert bs[..1][..0] == bs[..0];
    assert Concat(bs) == Concat(bs[..1]) + bs[1];
    SliceJoin(mem, p % 0x100_0000, PROBE_LEN, REST_LEN);
  }

  /** `if let Some(datadumper) = datadumper_ref { datadumper.process_datablock(block) }`:
      feed the block to the dump if there is one. */
  method Feed(dumper: DataDump?, block: seq<byte>) returns (r: Result<()>)
    modifies dumper
    ensures r.Ok? <==> dumper == null || Accepts(block)
    ensures dumper != null && |block| % GROUP_LEN == 0 ==> dumper.blocks == old(dumper.blocks) + [block]
  {
    r := Ok(());
    if dumper != null {
      r := dumper.ProcessDatablock(block);
    }
  }

  /** `cmdblock_read_doublet`: read the 0x100-byte probe; if it is all 0xFF stop
      with false; otherwise feed it, read the remaining 0xF00 bytes, feed them and
      return true. `dumper == null` is the source's `None`. */
  method ReadDoublet(comm: CommBulk, pos: nat, dumper: DataDump?) returns (r: Result<bool>)
    requires pos < U32_LIMIT
    modifies comm.intf, dumper
    ensures comm.intf.boots == old(comm.intf.boots)
    ensures dumper == null ==> (r.Ok? <==> DoubletFits(comm.intf.mem, pos))
    ensures dumper == null && r.Err? ==> r.error == Overflow
    ensures dumper != null ==> (r.Ok? <==> DoubletOk(comm.intf.mem, pos))
    ensures r.Ok? ==> r.value == !ProbeEmpty(comm.intf.mem, pos)
    ensures r.Ok? ==> comm.intf.served == old(comm.intf.served) + DoubletReads(comm.intf.mem, pos)
    ensures r.Ok? && dumper != null ==>
              dumper.blocks == old(dumper.blocks) + DoubletBlocks(comm.intf.mem, pos)
  {
    ghost var mem := comm.intf.mem;
    var resp1 := CmdRead(comm, pos, PROBE_LEN);
    IsErasedSpec(resp1.value);
    if resp1.value == Erased(PROBE_LEN) {
      return Ok(false);
    }
    r := DoubletRest(comm, pos, dumper, resp1.value);
  }

  /** The part of `cmdblock_read_doublet` after a probe `first` with data: feed it,
      read the remaining 0xF00 bytes, feed them and return true. */
  method DoubletRest(comm: CommBulk, pos: nat, dumper: DataDump?, first: seq<byte>) returns (r: Result<bool>)
    requires pos < U32_LIMIT && first == Bytes(comm.intf.mem, pos, PROBE_LEN)
    modifies comm.intf, dumper
    ensures comm.intf.boots == old(comm.intf.boots)
    ensures var second := Bytes(comm.intf.mem, pos + PROBE_LEN, REST_LEN);
            r.Ok? <==> pos + PROBE_LEN < U32_LIMIT && (dumper == null || (Accepts(first) && Accepts(second)))
    ensures dumper == null && r.Err? ==> r.error == Overflow
    ensures r.Ok? ==> r.value
    ensures r.Ok? ==> comm.intf.served == old(comm.intf.served) + [Read(pos + PROBE_LEN, REST_LEN)]
    ensures r.Ok? && dumper != null ==>
              dumper.blocks == old(dumper.blocks) + [first, Bytes(comm.intf.mem, pos + PROBE_LEN, REST_LEN)]
  {
    var fed := Feed(dumper, first);
    if fed.Err? {
      return Err(fed.error);
    }
    if pos + PROBE_LEN >= U32_LIMIT {
      return Err(Overflow);
    }
    ghost var blocks1 := if dumper == null then [] else dumper.blocks;
    var resp2 := CmdRead(comm, pos + PROBE_LEN, REST_LEN);
    fed := Feed(dumper, resp2.value);
    if fed.Err? {
      return Err(fed.error);
    }
    assert dumper != null ==> dumper.blocks == blocks1 + [resp2.value];
    r := Ok(true);
  }

  /** The reads of `n` doublets at `base`, `base + 0x1000`, ... */
  function DoubletsReads(mem: map<int, byte>, base: nat, n: nat): seq<ReadReq>
  {
    if n == 0 then [] else DoubletsReads(mem, base, n - 1) + DoubletReads(mem, base + 0x1000 * (n - 1))
  }

  /** The blocks that `n` doublets at `base`, `base + 0x1000`, ... feed. */
  function DoubletsBlocks(mem: map<int, byte>, base: nat, n: nat): seq<seq<byte>>
  {
    if n == 0 then [] else DoubletsBlocks(mem, base, n - 1) + DoubletBlocks(mem, base + 0x1000 * (n - 1))
  }

  lemma DoubletsStep(mem: map<int, byte>, base: nat, n: nat, next: nat, pos: nat)
    requires pos == base + 0x1000 * n && next == n + 1
    ensures DoubletsReads(mem, base, next) == DoubletsReads(mem, base, n) + DoubletReads(mem, pos)
    ensures DoubletsBlocks(mem, base, next) == DoubletsBlocks(mem, base, n) + DoubletBlocks(mem, pos)
  {
  }

  /** When every doublet of a bulk run starting at 0x1000 has data and the run
      stays within the 24-bit address space, the blocks fed to the dump, joined,
      are exactly the memory from 0x1000 on: nothing is skipped or read twice. */
  lemma {:induction false} BulkCovers(mem: map<int, byte>, g: nat)
    requires forall j :: 0 <= j < g ==> !ProbeEmpty(mem, FIRST_BLOCK + 0x1000 * j)
    requires 0x1000 * (g + 1) <= 0x100_0000
    ensures Concat(DoubletsBlocks(mem, FIRST_BLOCK, g)) == MemSlice(mem, FIRST_BLOCK, 0x1000 * g)
  {
    if g > 0 {
      BulkCovers(mem, g - 1);
      BulkCoversStep(mem, g - 1, g);
    }
  }

  /** One more doublet of `BulkCovers`: the `g`-th has data and lies within the
      24-bit address space, so it extends the covered memory by one block. */
  lemma BulkCoversStep(mem: map<int, byte>, k: nat, g: nat)
    requires g == k + 1 && !ProbeEmpty(mem, 0x1000 * g) && 0x1000 * (g + 1) <= 0x100_0000
    requires Concat(DoubletsBlocks(mem, FIRST_BLOCK, k)) == MemSlice(mem, FIRST_BLOCK, 0x1000 * k)
    ensures Concat(DoubletsBlocks(mem, FIRST_BLOCK, g)) == MemSlice(mem, FIRST_BLOCK, 0x1000 * g)
  {
    var p, q := 0x1000 * g, 0x1000 * k;
    assert FIRST_BLOCK + q == p;
    DoubletCoversBlock(mem, g);
    DivModUnique(p, 0x100_0000, 0, p);
    assert DoubletsBlocks(mem, FIRST_BLOCK, g) == DoubletsBlocks(mem, FIRST_BLOCK, k) + DoubletBlocks(mem, p);
    ConcatJoin(DoubletsBlocks(mem, FIRST_BLOCK, k), DoubletBlocks(mem, p));
    SliceJoin(mem, FIRST_BLOCK, q, 0x1000);
  }

  // --------------------------------------------------------- end-offset probe

  function ProbePos(idOffset: nat, i: nat): nat
  {
    idOffset + 0x1000 * i
  }

  /** Probe `i` finds recorded data. */
  predicate Hit(mem: map<int, byte>, idOffset: nat, i: nat)
  {
    !ProbeEmpty(mem, ProbePos(idOffset, i))
  }

  /** The loop condition of `cmdblock_find_end_offset` before probe `i`: fewer
      than two probes so far, or one of the last two found data. */
  predicate Continues(mem: map<int, byte>, idOffset: nat, i: nat)
  {
    i < 2 || Hit(mem, idOffset, i - 1) || Hit(mem, idOffset, i - 2)
  }

  /** The loop goes on after each of the first `n` probes. */
  predicate ContinuesThrough(mem: map<int, byte>, idOffset: nat, n: nat)
  {
    n == 0 || (ContinuesThrough(mem, idOffset, n - 1) && Continues(mem, idOffset, n - 1))
  }

  lemma {:induction false} ContinuesBefore(mem: map<int, byte>, idOffset: nat, n: nat, i: nat)
    requires ContinuesThrough(mem, idOffset, n)
    ensures i < n ==> Continues(mem, idOffset, i)
  {
    if i < n - 1 {
      ContinuesBefore(mem, idOffset, n - 1, i);
    }
  }

  /** The search makes exactly `n` probes. */
  predicate ProbeStop(mem: map<int, byte>, idOffset: nat, n: nat)
  {
    ContinuesThrough(mem, idOffset, n) && !Continues(mem, idOffset, n)
  }

  /** The stopping point is unique. */
  lemma ProbeStopUnique(mem: map<int, byte>, idOffset: nat, n: nat, n': nat)
    requires ProbeStop(mem, idOffset, n) && ProbeStop(mem, idOffset, n')
    ensures n == n'
  {
    ContinuesBefore(mem, idOffset, n', n);
    ContinuesBefore(mem, idOffset, n, n');
  }

  /** The search stops after at least two probes, only behind two empty ones, and
      never passes two empty probes in a row before that. */
  lemma ProbeStopShape(mem: map<int, byte>, idOffset: nat, n: nat)
    requires ProbeStop(mem, idOffset, n)
    ensures n >= 2 && !Hit(mem, idOffset, n - 1) && !Hit(mem, idOffset, n - 2)
    ensures forall i :: 1 <= i < n - 1 ==> Hit(mem, idOffset, i - 1) || Hit(mem, idOffset, i)
  {
    forall i | 1 <= i < n - 1
      ensures Hit(mem, idOffset, i - 1) || Hit(mem, idOffset, i)
    {
      ContinuesBefore(mem, idOffset, n, i + 1);
    }
  }

  lemma {:induction false} HitsContinue(mem: map<int, byte>, idOffset: nat, m: nat, k: nat)
    requires forall i :: 0 <= i < m ==> Hit(mem, idOffset, i)
    requires k <= m + 2
    ensures ContinuesThrough(mem, idOffset, k)
  {
    if k > 0 {
      HitsContinue(mem, idOffset, m, k - 1);
      if k >= 3 {
        assert Hit(mem, idOffset, k - 3);
      }
    }
  }

  /** When the recorded blocks from `idOffset` on are exactly the first `m`,
      followed by two erased ones, the search makes `m + 2` probes and ends on
      the last recorded block. */
  lemma ProbeContiguous(mem: map<int, byte>, idOffset: nat, m: nat)
    requires forall i :: 0 <= i < m ==> Hit(mem, idOffset, i)
    requires !Hit(mem, idOffset, m) && !Hit(mem, idOffset, m + 1)
    ensures ProbeStop(mem, idOffset, m + 2)
    ensures LastHit(mem, idOffset, m + 2) == if m == 0 then None else Some(m - 1)
  {
    HitsContinue(mem, idOffset, m, m + 2);
    assert LastHit(mem, idOffset, m + 2) == LastHit(mem, idOffset, m + 1) == LastHit(mem, idOffset, m);
    if m > 0 {
      assert Hit(mem, idOffset, m - 1);
    }
  }

  /** The last probe, among the first `n`, that found data. */
  function LastHit(mem: map<int, byte>, idOffset: nat, n: nat): (r: Option<nat>)
    ensures r.Some? ==> r.value < n
  {
    if n == 0 then None
    else if Hit(mem, idOffset, n - 1) then Some(n - 1)
    else LastHit(mem, idOffset, n - 1)
  }

  /** `LastHit` finds a probe with data after which there is none, and finds none
      exactly when no probe found data. */
  lemma {:induction false} LastHitSpec(mem: map<int, byte>, idOffset: nat, n: nat)
    ensures var r := LastHit(mem, idOffset, n);
            && (r.Some? ==> Hit(mem, idOffset, r.value))
            && (r.Some? ==> forall j :: r.value < j < n ==> !Hit(mem, idOffset, j))
            && (r.None? <==> forall j :: 0 <= j < n ==> !Hit(mem, idOffset, j))
  {
    if n > 0 && !Hit(mem, idOffset, n - 1) {
      LastHitSpec(mem, idOffset, n - 1);
    }
  }

  /** `end_offset`: the position of the last probe that found data, or the count
      offset when none did. */
  function EndOffset(mem: map<int, byte>, idOffset: nat, n: nat): nat
  {
    var last := LastHit(mem, idOffset, n);
    if last.Some? then ProbePos(idOffset, last.value) else idOffset
  }

  /** The variables of the probe loop after `i` probes: `r0` and `r1` say whether
      the last and the one before found data, `allBeginEmpty` whether none did,
      and `endOffset` is the end offset so far. */
  predicate ProbeLoop(mem: map<int, byte>, idOffset: nat, i: nat, r0: bool, r1: bool,
                      allBeginEmpty: bool, endOffset: nat)
  {
    && r0 == (i >= 1 && Hit(mem, idOffset, i - 1))
    && r1 == (i >= 2 && Hit(mem, idOffset, i - 2))
    && ContinuesThrough(mem, idOffset, i)
    && allBeginEmpty == LastHit(mem, idOffset, i).None?
    && endOffset == EndOffset(mem, idOffset, i)
  }

  /** One turn of the probe loop, taken while the loop condition holds: the
      variables after probe `i` given whether it found data. */
  lemma ProbeLoopStep(mem: map<int, byte>, idOffset: nat, i: nat, r0: bool, r1: bool,
                      allBeginEmpty: bool, endOffset: nat,
                      r0': bool, r1': bool, allBeginEmpty': bool, endOffset': nat, next: nat)
    requires ProbeLoop(mem, idOffset, i, r0, r1, allBeginEmpty, endOffset) && (i < 2 || r0 || r1)
    requires r0' == Hit(mem, idOffset, i) && r1' == r0 && allBeginEmpty' == (allBeginEmpty && !r0')
    requires endOffset' == if r0' then ProbePos(idOffset, i) else endOffset
    requires next == i + 1
    ensures ProbeLoop(mem, idOffset, next, r0', r1', allBeginEmpty', endOffset')
  {
  }

  /** Probe `i` of `cmdblock_find_end_offset`: the doublet at `id_offset + i * 0x1000`,
      read without a dump. */
  method Probe(comm: CommBulk, idOffset: nat, i: nat, ghost served0: seq<ReadReq>) returns (r: Result<bool>)
    requires ProbePos(idOffset, i) < U32_LIMIT
    requires comm.intf.served == served0 + DoubletsReads(comm.intf.mem, idOffset, i)
    modifies comm.intf
    ensures comm.intf.boots == old(comm.intf.boots)
    ensures r.Err? ==> r.error == Overflow && U32_LIMIT <= ProbePos(idOffset, i) + PROBE_LEN
    ensures r.Ok? ==> r.value == Hit(comm.intf.mem, idOffset, i)
    ensures r.Ok? ==> comm.intf.served == served0 + DoubletsReads(comm.intf.mem, idOffset, i + 1)
  {
    ghost var mem := comm.intf.mem;
    var pos := idOffset + 0x1000 * i;
    r := ReadDoublet(comm, pos, null);
    if r.Ok? {
      DoubletsStep(mem, idOffset, i, i + 1, pos);
      AppendAssoc(served0, DoubletsReads(mem, idOffset, i), DoubletReads(mem, pos));
    }
  }

  /** `cmdblock_find_end_offset`: probe the blocks at `id_offset + i * 0x1000`
      without feeding the dump until, after at least two probes, the last two were
      empty; then read 0x80 bytes at the end of the last probed block. A position
      beyond u32 is an overflow error. `n` is the number of probes made. */
  method FindEndOffset(comm: CommBulk, idOffset: nat) returns (r: Result<(nat, bool)>, ghost n: nat)
    requires idOffset < U32_LIMIT
    modifies comm.intf
    ensures comm.intf.boots == old(comm.intf.boots)
    ensures r.Ok? ==> ProbeStop(comm.intf.mem, idOffset, n)
    ensures r.Ok? ==> r.value.0 == EndOffset(comm.intf.mem, idOffset, n) && r.value.0 < U32_LIMIT
    ensures r.Ok? ==> (r.value.1 <==> LastHit(comm.intf.mem, idOffset, n).None?)
    ensures r.Ok? ==> comm.intf.served == old(comm.intf.served) + DoubletsReads(comm.intf.mem, idOffset, n) +
                                          [Read(ProbePos(idOffset, n - 1) + EXTRA_POS, EXTRA_LEN)]
    ensures r.Err? ==> r.error == Overflow && ContinuesThrough(comm.intf.mem, idOffset, n) &&
                       U32_LIMIT <= ProbePos(idOffset, n) + PROBE_LEN
  {
    var probed, i := ProbeRun(comm, idOffset);
    n := i;
    if probed.Err? {
      return probed, n;
    }
    if idOffset + 0x1000 * (i - 1) + EXTRA_POS >= U32_LIMIT {
      return Err(Overflow), n;
    }
    var extra := CmdRead(comm, idOffset + 0x1000 * (i - 1) + EXTRA_POS, EXTRA_LEN);
    r := probed;
  }

  /** The probe loop of `cmdblock_find_end_offset`, without the read after it. */
  method ProbeRun(comm: CommBulk, idOffset: nat) returns (r: Result<(nat, bool)>, n: nat)
    requires idOffset < U32_LIMIT
    modifies comm.intf
    ensures comm.intf.boots == old(comm.intf.boots)
    ensures r.Ok? ==> ProbeStop(comm.intf.mem, idOffset, n) && n >= 1 && ProbePos(idOffset, n - 1) < U32_LIMIT
    ensures r.Ok? ==> r.value.0 == EndOffset(comm.intf.mem, idOffset, n) && r.value.0 < U32_LIMIT
    ensures r.Ok? ==> (r.value.1 <==> LastHit(comm.intf.mem, idOffset, n).None?)
    ensures r.Ok? ==> comm.intf.served == old(comm.intf.served) + DoubletsReads(comm.intf.mem, idOffset, n)
    ensures r.Err? ==> r.error == Overflow && ContinuesThrough(comm.intf.mem, idOffset, n) &&
                       U32_LIMIT <= ProbePos(idOffset, n) + PROBE_LEN
  {
    ghost var mem := comm.intf.mem;
    var endOffset: nat := idOffset;
    var allBeginEmpty := true;
    var r1 := false;
    var r0 := false;
    var i: nat := 0;
    while i < 2 || r0 || r1
      invariant ProbeLoop(mem, idOffset, i, r0, r1, allBeginEmpty, endOffset)
      invariant i == 0 || ProbePos(idOffset, i - 1) < U32_LIMIT
      invariant endOffset < U32_LIMIT
      invariant comm.intf.served == old(comm.intf.served) + DoubletsReads(mem, idOffset, i)
      invariant comm.intf.boots == old(comm.intf.boots)
      decreases U32_LIMIT - i
    {
      if idOffset + 0x1000 * i >= U32_LIMIT {
        n := i;
        return Err(Overflow), n;
      }
      ghost var (r0_, r1_, all_, end_) := (r0, r1, allBeginEmpty, endOffset);
      r1 := r0;
      var probe := Probe(comm, idOffset, i, old(comm.intf.served));
      if probe.Err? {
        n := i;
        return Err(probe.error), n;
      }
      r0 := probe.value;
      if r0 {
        endOffset := idOffset + 0x1000 * i;
        allBeginEmpty := false;
      }
      ghost var prev := i;
      i := i + 1;
      ProbeLoopStep(mem, idOffset, prev, r0_, r1_, all_, end_, r0, r1, allBeginEmpty, endOffset, i);
    }
    n := i;
    r := Ok((endOffset, allBeginEmpty));
  }

  // ------------------------------------------------------------- bulk phase

  /** The number of doublets the bulk loop reads below `endOffset`: those at
      0x1000, 0x2000, ... strictly below it. */
  function BulkCount(endOffset: nat): (g: nat)
    ensures (g == 0 && endOffset <= FIRST_BLOCK) || (0x1000 * g < endOffset <= 0x1000 * (g + 1))
  {
    if endOffset <= FIRST_BLOCK then 0 else (endOffset - 1) / 0x1000
  }

  /** The first `g` doublets of the bulk loop succeed, feeding the dump. */
  predicate BulkOk(mem: map<int, byte>, g: nat)
  {
    forall j :: 0 <= j < g ==> DoubletOk(mem, ProbePos(FIRST_BLOCK, j))
  }

  /** The bulk loop of `workflow`: read doublets at `offset = 0x1000, 0x2000, ...`
      while `offset < end_offset`, feeding the dump. On success it returns the
      first offset not read. */
  method BulkPhase(comm: CommBulk, endOffset: nat, dumper: DataDump) returns (r: Result<nat>, ghost g: nat)
    requires endOffset < U32_LIMIT
    modifies comm.intf, dumper
    ensures comm.intf.boots == old(comm.intf.boots)
    ensures r.Ok? ==> BulkOk(comm.intf.mem, BulkCount(endOffset)) && 0x1000 * (BulkCount(endOffset) + 1) < U32_LIMIT
    ensures r.Err? ==> !BulkOk(comm.intf.mem, BulkCount(endOffset)) || U32_LIMIT <= 0x1000 * (BulkCount(endOffset) + 1)
    ensures r.Ok? ==> g == BulkCount(endOffset) && r.value == FIRST_BLOCK + 0x1000 * g
    ensures r.Ok? ==> comm.intf.served == old(comm.intf.served) + DoubletsReads(comm.intf.mem, FIRST_BLOCK, g)
    ensures r.Ok? ==> dumper.blocks == old(dumper.blocks) + DoubletsBlocks(comm.intf.mem, FIRST_BLOCK, g)
  {
    ghost var mem := comm.intf.mem;
    ghost var count := BulkCount(endOffset);
    var offset := FIRST_BLOCK;
    g := 0;
    while offset < endOffset
      invariant offset == FIRST_BLOCK + 0x1000 * g && offset < U32_LIMIT
      invariant g <= count
      invariant BulkOk(mem, g)
      invariant comm.intf.served == old(comm.intf.served) + DoubletsReads(mem, FIRST_BLOCK, g)
      invariant dumper.blocks == old(dumper.blocks) + DoubletsBlocks(mem, FIRST_BLOCK, g)
      invariant comm.intf.boots == old(comm.intf.boots)
      decreases endOffset - offset
    {
      BulkCountAbove(endOffset, g);
      var fed := BulkStep(comm, offset, dumper, g, old(comm.intf.served), old(dumper.blocks));
      if fed.Err? {
        BulkStops(mem, g, count);
        return Err(fed.error), g;
      }
      offset := offset + 0x1000;
      g := g + 1;
    }
    BulkCountEnd(endOffset, g);
    r := Ok(offset);
  }

  /** One turn of the bulk loop: the doublet at `offset`, the `g`-th, then the
      overflow check of `offset += 0x1000`. */
  method BulkStep(comm: CommBulk, offset: nat, dumper: DataDump, ghost g: nat,
                  ghost served0: seq<ReadReq>, ghost blocks0: seq<seq<byte>>) returns (r: Result<()>)
    requires offset == FIRST_BLOCK + 0x1000 * g && offset < U32_LIMIT
    requires comm.intf.served == served0 + DoubletsReads(comm.intf.mem, FIRST_BLOCK, g)
    requires dumper.blocks == blocks0 + DoubletsBlocks(comm.intf.mem, FIRST_BLOCK, g)
    requires BulkOk(comm.intf.mem, g)
    modifies comm.intf, dumper
    ensures comm.intf.boots == old(comm.intf.boots)
    ensures r.Ok? <==> BulkOk(comm.intf.mem, g + 1) && offset + 0x1000 < U32_LIMIT
    ensures r.Ok? ==> comm.intf.served == served0 + DoubletsReads(comm.intf.mem, FIRST_BLOCK, g + 1)
    ensures r.Ok? ==> dumper.blocks == blocks0 + DoubletsBlocks(comm.intf.mem, FIRST_BLOCK, g + 1)
  {
    ghost var mem := comm.intf.mem;
    BulkOkNext(mem, g, offset);
    var fed := ReadDoublet(comm, offset, dumper);
    if fed.Err? {
      return Err(fed.error);
    }
    if offset + 0x1000 >= U32_LIMIT {
      return Err(Overflow);
    }
    DoubletsStep(mem, FIRST_BLOCK, g, g + 1, offset);
    AppendAssoc(served0, DoubletsReads(mem, FIRST_BLOCK, g), DoubletReads(mem, offset));
    AppendAssoc(blocks0, DoubletsBlocks(mem, FIRST_BLOCK, g), DoubletBlocks(mem, offset));
    r := Ok(());
  }

  /** A doublet read below the end offset is one the bulk loop must do. */
  lemma BulkCountAbove(endOffset: nat, g: nat)
    requires FIRST_BLOCK + 0x1000 * g < endOffset
    ensures g < BulkCount(endOffset)
  {
  }

  /** Once the offset reaches the end offset, the loop has read all of them. */
  lemma BulkCountEnd(endOffset: nat, g: nat)
    requires g <= BulkCount(endOffset) && endOffset <= FIRST_BLOCK + 0x1000 * g
    ensures g == BulkCount(endOffset)
  {
  }

  lemma BulkOkNext(mem: map<int, byte>, g: nat, pos: nat)
    requires pos == FIRST_BLOCK + 0x1000 * g
    ensures BulkOk(mem, g + 1) == (BulkOk(mem, g) && DoubletOk(mem, pos))
  {
    assert ProbePos(FIRST_BLOCK, g) == pos;
  }

  /** A failing turn among the first `count` fails the whole bulk loop. */
  lemma BulkStops(mem: map<int, byte>, g: nat, count: nat)
    requires g < count
    ensures BulkOk(mem, count) && 0x1000 * (count + 1) < U32_LIMIT ==>
            BulkOk(mem, g + 1) && FIRST_BLOCK + 0x1000 * g + 0x1000 < U32_LIMIT
  {
  }

  // ------------------------------------------------------------- tail phase

  /** The three reads of the tail, in the order made. */
  function TailReads(offset: nat): seq<ReadReq>
  {
    [Read(offset, 0x100), Read(offset + 0xf80, 0x80), Read(offset + 0x100, 0xe80)]
  }

  function TailBlocks(mem: map<int, byte>, offset: nat): seq<seq<byte>>
  {
    [Bytes(mem, offset, 0x100), Bytes(mem, offset + 0xf80, 0x80), Bytes(mem, offset + 0x100, 0xe80)]
  }

  /** The tail succeeds: the dump accepts each block, and the positions after the
      first do not overflow u32. */
  predicate TailOk(mem: map<int, byte>, offset: nat)
  {
    Accepts(Bytes(mem, offset, 0x100)) && offset + 0xf80 < U32_LIMIT &&
    Accepts(Bytes(mem, offset + 0xf80, 0x80)) && Accepts(Bytes(mem, offset + 0x100, 0xe80))
  }

  /** The three tail reads at a block boundary, put in address order, are exactly
      the 0x1000-byte block. */
  lemma TailCoversBlock(mem: map<int, byte>, m: nat)
    ensures var t := TailBlocks(mem, 0x1000 * m);
            t[0] + t[2] + t[1] == Bytes(mem, 0x1000 * m, STEP)
  {
    var p := 0x1000 * m;
    BlockOffset(m, 0x100);
    BlockOffset(m, 0xf80);
    SliceJoin(mem, p % 0x100_0000, 0x100, 0xe80);
    SliceJoin(mem, p % 0x100_0000, 0xf80, 0x80);
  }

  /** `let resp = cmd_read(comm, pos, size); datadumper.process_datablock(resp)`,
      as the tail does three times. */
  method ReadInto(comm: CommBulk, pos: nat, size: nat, dumper: DataDump) returns (r: Result<()>)
    requires pos < U32_LIMIT && size < U16_LIMIT && size % 128 == 0
    modifies comm.intf, dumper
    ensures comm.intf.boots == old(comm.intf.boots)
    ensures comm.intf.served == old(comm.intf.served) + [Read(pos, size)]
    ensures r.Ok? <==> Accepts(Bytes(comm.intf.mem, pos, size))
    ensures dumper.blocks == old(dumper.blocks) + [Bytes(comm.intf.mem, pos, size)]
  {
    var resp := CmdRead(comm, pos, size);
    r := dumper.ProcessDatablock(resp.value);
  }

  /** The tail of `workflow`: read (offset, 0x100), (offset + 0xF80, 0x80) and
      (offset + 0x100, 0xE80), feeding each to the dump. */
  method TailPhase(comm: CommBulk, offset: nat, dumper: DataDump) returns (r: Result<()>)
    requires offset < U32_LIMIT
    modifies comm.intf, dumper
    ensures comm.intf.boots == old(comm.intf.boots)
    ensures r.Ok? <==> TailOk(comm.intf.mem, offset)
    ensures r.Ok? ==> comm.intf.served == old(comm.intf.served) + TailReads(offset)
    ensures r.Ok? ==> dumper.blocks == old(dumper.blocks) + TailBlocks(comm.intf.mem, offset)
  {
    var fed := ReadInto(comm, offset, 0x100, dumper);
    if fed.Err? {
      return Err(fed.error);
    }
    r := TailRest(comm, offset, dumper);
  }

  /** The last two reads of the tail, (offset + 0xF80, 0x80) and
      (offset + 0x100, 0xE80). */
  method TailRest(comm: CommBulk, offset: nat, dumper: DataDump) returns (r: Result<()>)
    requires offset < U32_LIMIT
    modifies comm.intf, dumper
    ensures comm.intf.boots == old(comm.intf.boots)
    ensures r.Ok? <==> offset + 0xf80 < U32_LIMIT &&
                       Accepts(Bytes(comm.intf.mem, offset + 0xf80, 0x80)) && Accepts(Bytes(comm.intf.mem, offset + 0x100, 0xe80))
    ensures r.Ok? ==> comm.intf.served == old(comm.intf.served) + [Read(offset + 0xf80, 0x80), Read(offset + 0x100, 0xe80)]
    ensures r.Ok? ==> dumper.blocks == old(dumper.blocks) +
                                       [Bytes(comm.intf.mem, offset + 0xf80, 0x80), Bytes(comm.intf.mem, offset + 0x100, 0xe80)]
  {
    if offset + 0xf80 >= U32_LIMIT {
      return Err(Overflow);
    }
    var fed := ReadInto(comm, offset + 0xf80, 0x80, dumper);
    if fed.Err? {
      return Err(fed.error);
    }
    fed := ReadInto(comm, offset + 0x100, 0xe80, dumper);
    if fed.Err? {
      return Err(fed.error);
    }
    r := Ok(());
  }

  // ---------------------------------------------------------- identification

  /** What `cmdblock_identify` returns: the model, the count offset and the
      identification record. */
  datatype Identity = Identity(model: Model, offset: nat, id: Identification)

  /** The outcome of `cmdblock_identify` on device `d` after the frames `h`: NMEA
      switch on (empty answer), then model, identification and count, each answer
      coming after the frames sent before it. */
  function IdentifyAfter(d: Device, h: seq<seq<byte>>, meta: bool): Result<Identity>
  {
    var _ :- EqAnswer(ExchangeAfter(d, h, NmeaSwitchCommand(true)), []);
    var h1 := h + [CommandFrame(NmeaSwitchCommand(true))];
    var model :- Decoded(ExchangeAfter(d, h1, MODEL_COMMAND), DecodeModel);
    var h2 := h1 + [CommandFrame(MODEL_COMMAND)];
    var id :- Decoded(ExchangeAfter(d, h2, IDENTIFICATION_COMMAND), a => DecodeIdentification(a, meta));
    var offset :- CountAfter(d, h2 + [CommandFrame(IDENTIFICATION_COMMAND)]);
    Ok(Identity(model, offset, id))
  }

  /** The answer to a count command after the frames `h`. */
  function CountAfter(d: Device, h: seq<seq<byte>>): Result<nat>
  {
    Decoded(ExchangeAfter(d, h, COUNT_COMMAND), DecodeCount)
  }

  /** The offset of a successful identification is a block boundary above the
      configuration block, within u32. */
  lemma IdentifyOffset(d: Device, h: seq<seq<byte>>, meta: bool)
    requires IdentifyAfter(d, h, meta).Ok?
    ensures var o := IdentifyAfter(d, h, meta).value.offset;
            o % 0x1000 == 0 && FIRST_BLOCK <= o < U32_LIMIT
  {
    var h3 := h + [CommandFrame(NmeaSwitchCommand(true))] + [CommandFrame(MODEL_COMMAND)] +
              [CommandFrame(IDENTIFICATION_COMMAND)];
    var count := CountAfter(d, h3);
    assert count.Ok? && IdentifyAfter(d, h, meta).value.offset == count.value;
    CountOffset(count.value);
  }

  lemma CountOffset(o: nat)
    requires exists b: byte, c: byte :: o == CalculateOffsetFromCount(b, c)
    ensures o % 0x1000 == 0 && FIRST_BLOCK <= o < U32_LIMIT
  {
    var b: byte, c: byte :| o == CalculateOffsetFromCount(b, c);
    var k: nat := 8 * (b as nat) + (c as nat) / 32 + 1;
    DivModUnique(o, 0x1000, k, 0);
  }

  /** `cmdblock_identify` */
  method Identify(comm: CommBulk, meta: bool) returns (r: Result<Identity>)
    modifies comm.intf
    ensures r == IdentifyAfter(comm.intf, old(comm.intf.sent), meta)
    ensures r.Ok? ==> comm.intf.sent == old(comm.intf.sent) + [CommandFrame(NmeaSwitchCommand(true))] +
                      [CommandFrame(MODEL_COMMAND)] + [CommandFrame(IDENTIFICATION_COMMAND)] +
                      [CommandFrame(COUNT_COMMAND)]
    ensures comm.intf.served == old(comm.intf.served)
    ensures comm.intf.boots == old(comm.intf.boots)
  {
    var on := CmdNmeaSwitch(comm, true);
    if on.Err? {
      return Err(on.error);
    }
    var model :- CmdModel(comm);
    var id :- CmdIdentification(comm, meta);
    var offset :- CmdCount(comm);
    r := Ok(Identity(model, offset, id));
  }

  // ----------------------------------------------------------- configuration

  /** The alias that `cmdblock_readconfig` takes from bytes 16..48 of the
      configuration block, trailing NULs removed. */
  function ConfigAlias(mem: map<int, byte>): string
  {
    Text.TrimEndMatches(Text.Latin1(Bytes(mem, 0, CONFIG_LEN)[16..48]), '\0')
  }

  /** The alias is a NUL-free-ended prefix of the 32 name bytes, and what was cut
      off is all NULs. */
  lemma ConfigAliasForm(mem: map<int, byte>)
    ensures var name := Bytes(mem, 0, CONFIG_LEN)[16..48];
            var a := ConfigAlias(mem);
            && |a| <= 32
            && (forall i :: 0 <= i < |a| ==> a[i] as int == name[i])
            && (forall i :: |a| <= i < 32 ==> name[i] == 0)
            && (|a| == 0 || name[|a| - 1] != 0)
  {
    var name := Bytes(mem, 0, CONFIG_LEN)[16..48];
    var chars := Text.Latin1(name);
    var a := ConfigAlias(mem);
    assert a == chars[..|a|];
    forall i | |a| <= i < 32
      ensures name[i] == 0
    {
      assert chars[i] == '\0';
    }
    if |a| > 0 {
      assert a[|a| - 1] == chars[|a| - 1];
    }
  }

  /** `cmdblock_readconfig`: read the 0xEA-byte configuration block at 0 and set the
      alias from it; every other field is untouched. */
  method ReadConfig(comm: CommBulk, id: Identification) returns (r: Identification)
    modifies comm.intf
    ensures r == id.(alias := ConfigAlias(comm.intf.mem))
    ensures comm.intf.served == old(comm.intf.served) + [Read(0, CONFIG_LEN)]
    ensures comm.intf.sent == old(comm.intf.sent) + [CommandFrame(ReadCommand(0, CONFIG_LEN))]
    ensures comm.intf.boots == old(comm.intf.boots)
  {
    var response := CmdRead(comm, 0, CONFIG_LEN);
    var name := Text.Latin1(response.value[16..48]);
    r := id.(alias := Text.TrimEndMatches(name, '\0'));
  }

  // ---------------------------------------------------------------- prologue

  /** The slot at 0x1FFF80 holds eight 0xFF bytes. */
  predicate SlotErased(mem: map<int, byte>)
  {
    Bytes(mem, SLOT_POS, SLOT_LEN) == Erased(SLOT_LEN)
  }

  /** The reads of `AliasAndCount`: the slot again when following the original
      software, and the configuration block. */
  function AliasReads(origSw: bool): seq<ReadReq>
  {
    (if origSw then [Read(SLOT_POS, SLOT_LEN)] else []) + [Read(0, CONFIG_LEN)]
  }

  /** `cmd_read(0x1fff80, 8)`, which must give eight 0xFF bytes, and only then
      `cmd_set_time` with the transport's clock. */
  method SlotThenTime(comm: CommBulk) returns (r: Result<()>)
    modifies comm.intf
    ensures !SlotErased(comm.intf.mem) ==> r == Err(UnknownDeviceState)
    ensures r.Ok? ==> SlotErased(comm.intf.mem)
    ensures comm.intf.served == old(comm.intf.served) + [Read(SLOT_POS, SLOT_LEN)]
    ensures SlotErased(comm.intf.mem) ==>
              var h := old(comm.intf.sent) + [CommandFrame(ReadCommand(SLOT_POS, SLOT_LEN))];
              var t := SetTimeCommand(comm.intf.clockMicros);
              r == EqAnswer(ExchangeAfter(comm.intf, h, t), []) && comm.intf.sent == h + [CommandFrame(t)]
    ensures comm.intf.boots == old(comm.intf.boots)
  {
    var slot := CmdRead(comm, SLOT_POS, SLOT_LEN);
    if !(|slot.value| == 8 && slot.value == Erased(8)) {
      return Err(UnknownDeviceState);
    }
    var timeUs := comm.GetTimeMicros();
    r := CmdSetTime(comm, timeUs);
  }

  /** The part of `workflow` between the time and the end-offset search:
      optionally the count and the slot read again as the original software does,
      the configuration read into the alias, and the count checked once more
      against the identification's offset. */
  method AliasAndCount(comm: CommBulk, first: Identity, origSw: bool) returns (r: Result<Identity>)
    modifies comm.intf
    ensures r.Ok? ==> r.value == first.(id := first.id.(alias := ConfigAlias(comm.intf.mem)))
    ensures r.Ok? ==> comm.intf.served == old(comm.intf.served) + AliasReads(origSw)
    ensures r.Ok? ==> |comm.intf.sent| > 0 && comm.intf.sent[|comm.intf.sent| - 1] == CommandFrame(COUNT_COMMAND) &&
                      CountAfter(comm.intf, comm.intf.sent[..|comm.intf.sent| - 1]) == Ok(first.offset)
    ensures r.Ok? && origSw ==> CountAfter(comm.intf, old(comm.intf.sent)) == Ok(first.offset)
    ensures old(comm.intf.sent) <= comm.intf.sent
    ensures comm.intf.boots == old(comm.intf.boots)
  {
    if origSw {
      var again :- CmdCount(comm);
      if again != first.offset {
        return Err(OffsetChanged(first.offset, again));
      }
      // The source asserts that this read equals the first one; the model's memory
      // does not change, so it does.
      var slot2 := CmdRead(comm, SLOT_POS, SLOT_LEN);
    }
    var id := ReadConfig(comm, first.id);
    ghost var h := comm.intf.sent;
    var offset :- CmdCount(comm);
    assert comm.intf.sent[..|comm.intf.sent| - 1] == h;
    if offset != first.offset {
      return Err(OffsetChanged(first.offset, offset));
    }
    r := Ok(first.(id := id));
  }

  // ---------------------------------------------------------------- download

  /** The blocks the download feeds to the dump after `g` bulk doublets, when
      `tail` says whether any probe found data. */
  function DownloadBlocks(mem: map<int, byte>, g: nat, tail: bool): seq<seq<byte>>
  {
    DoubletsBlocks(mem, FIRST_BLOCK, g) + (if tail then TailBlocks(mem, FIRST_BLOCK + 0x1000 * g) else [])
  }

  /** The reads of the download after `n` probes and `g` bulk doublets, in order:
      the probes, the extra read at the end of the last probed block, the bulk
      doublets and the tail. */
  function DownloadReads(mem: map<int, byte>, idOffset: nat, n: nat, g: nat, tail: bool): seq<ReadReq>
    requires n >= 1
  {
    DoubletsReads(mem, idOffset, n) + [Read(ProbePos(idOffset, n - 1) + EXTRA_POS, EXTRA_LEN)] + DumpReads(g, mem, tail)
  }

  /** The bulk loop below `endOffset` and then, when `tail`, the tail at the offset
      after it: the part of `workflow` that feeds the dump. */
  method DumpPhase(comm: CommBulk, endOffset: nat, tail: bool, dumper: DataDump) returns (r: Result<()>, ghost g: nat)
    requires endOffset < U32_LIMIT
    modifies comm.intf, dumper
    ensures comm.intf.boots == old(comm.intf.boots)
    ensures r.Ok? ==> g == BulkCount(endOffset)
    ensures r.Ok? ==> dumper.blocks == old(dumper.blocks) + DownloadBlocks(comm.intf.mem, g, tail)
    ensures r.Ok? ==> comm.intf.served == old(comm.intf.served) + DumpReads(g, comm.intf.mem, tail)
  {
    var bulk;
    bulk, g := BulkPhase(comm, endOffset, dumper);
    if bulk.Err? {
      return Err(bulk.error), g;
    }
    if tail {
      var fed := TailPhase(comm, bulk.value, dumper);
      if fed.Err? {
        return Err(fed.error), g;
      }
    }
    r := Ok(());
  }

  function DumpReads(g: nat, mem: map<int, byte>, tail: bool): seq<ReadReq>
  {
    DoubletsReads(mem, FIRST_BLOCK, g) + (if tail then TailReads(FIRST_BLOCK + 0x1000 * g) else [])
  }

  /** The download part of `workflow`: the end-offset search from the count
      offset, the bulk loop below the end offset and, unless every probe was
      empty, the tail. `n` is the number of probes, `g` the number of bulk
      doublets. */
  method Download(comm: CommBulk, idOffset: nat, dumper: DataDump) returns (r: Result<()>, ghost n: nat, ghost g: nat)
    requires idOffset < U32_LIMIT
    modifies comm.intf, dumper
    ensures comm.intf.boots == old(comm.intf.boots)
    ensures r.Ok? ==> ProbeStop(comm.intf.mem, idOffset, n) && n >= 2
    ensures r.Ok? ==> g == BulkCount(EndOffset(comm.intf.mem, idOffset, n))
    ensures r.Ok? ==>
      dumper.blocks == old(dumper.blocks) + DownloadBlocks(comm.intf.mem, g, LastHit(comm.intf.mem, idOffset, n).Some?)
    ensures r.Ok? ==>
      comm.intf.served == old(comm.intf.served) + DownloadReads(comm.intf.mem, idOffset, n, g, LastHit(comm.intf.mem, idOffset, n).Some?)
  {
    ghost var mem := comm.intf.mem;
    var found;
    found, n := FindEndOffset(comm, idOffset);
    g := 0;
    if found.Err? {
      return Err(found.error), n, g;
    }
    ProbeStopShape(mem, idOffset, n);
    ghost var served1 := comm.intf.served;
    r, g := DumpPhase(comm, found.value.0, !found.value.1, dumper);
    if r.Ok? {
      AppendAssoc(old(comm.intf.served), DoubletsReads(mem, idOffset, n) + [Read(ProbePos(idOffset, n - 1) + EXTRA_POS, EXTRA_LEN)],
                  DumpReads(g, mem, !found.value.1));
    }
  }

  // ---------------------------------------------------------------- clearing

  /** How `workflow` ends when nothing fails: no GPX file was written (the device
      is kept), files were written and clearing was not asked for, or the device
      was cleared and set up again. */
  datatype Exit = NoFiles | Kept | Cleared

  /** What the identification after the reboot must show: the same model and the
      same identification record up to the alias. */
  predicate SameDevice(first: Identity, second: Identity)
  {
    second.model == first.model && first.id.(alias := second.id.alias) == second.id
  }

  /** The clearing part of `workflow`: `cmd_delete_reboot`, `cmdblock_identify`
      again, the check against the first identification (the alias may differ),
      and the slot and time as before the download. */
  method Clear(comm: CommBulk, meta: bool, first: Identity) returns (r: Result<()>)
    modifies comm.intf
    ensures comm.intf.boots == old(comm.intf.boots) + 1
    ensures var second := IdentifyAfter(comm.intf, old(comm.intf.sent) + [CommandFrame(DELETE_REBOOT_COMMAND)], meta);
            && (second.Err? ==> r == Err(second.error))
            && (second.Ok? && second.value.model != first.model ==> r == Err(ModelChanged))
            && (second.Ok? && second.value.model == first.model && !SameDevice(first, second.value) ==>
                  r == Err(IdentityChanged))
            && (r.Ok? ==> second.Ok? && SameDevice(first, second.value))
    ensures r.Ok? ==> SlotErased(comm.intf.mem)
    ensures r.Ok? ==> comm.intf.served == old(comm.intf.served) + [Read(SLOT_POS, SLOT_LEN)]
    ensures r.Ok? ==> var t := SetTimeCommand(comm.intf.clockMicros);
                      |comm.intf.sent| > 0 && comm.intf.sent[|comm.intf.sent| - 1] == CommandFrame(t) &&
                      EqAnswer(ExchangeAfter(comm.intf, comm.intf.sent[..|comm.intf.sent| - 1], t), []) == Ok(())
  {
    CmdDeleteReboot(comm);
    var second :- Identify(comm, meta);
    if second.model != first.model {
      return Err(ModelChanged);
    }
    if first.id.(alias := second.id.alias) != second.id {
      return Err(IdentityChanged);
    }
    r := SlotThenTime(comm);
  }

  /** The end of `workflow`: export the dump; stop when no file was written or
      when clearing was not asked for, and clear the device otherwise. */
  method Finish(comm: CommBulk, clear: bool, meta: bool, first: Identity, dumper: DataDump) returns (r: Result<Exit>)
    modifies comm.intf
    ensures var files := dumper.exportFiles(PointsOf(dumper.blocks));
            && (files == 0 ==> r == Ok(NoFiles))
            && (files != 0 && !clear ==> r == Ok(Kept))
            && (files != 0 && clear ==> comm.intf.boots == old(comm.intf.boots) + 1 && (r.Ok? ==> r.value == Cleared))
            && (files == 0 || !clear ==> comm.intf.sent == old(comm.intf.sent) && comm.intf.boots == old(comm.intf.boots))
    ensures r == Ok(Cleared) ==>
              var second := IdentifyAfter(comm.intf, old(comm.intf.sent) + [CommandFrame(DELETE_REBOOT_COMMAND)], meta);
              second.Ok? && SameDevice(first, second.value) && SlotErased(comm.intf.mem)
  {
    var files := dumper.WriteOut();
    if files == 0 {
      return Ok(NoFiles);
    }
    if !clear {
      return Ok(Kept);
    }
    var cleared := Clear(comm, meta, first);
    if cleared.Err? {
      return Err(cleared.error);
    }
    r := Ok(Cleared);
  }

  // ---------------------------------------------------------------- workflow

  /** The middle of `workflow` after a GT-120 was identified: slot and time, then
      alias and count. */
  method Prepare(comm: CommBulk, first: Identity, origSw: bool) returns (r: Result<Identity>)
    modifies comm.intf
    ensures r.Ok? ==> SlotErased(comm.intf.mem)
    ensures r.Ok? ==> r.value == first.(id := first.id.(alias := ConfigAlias(comm.intf.mem)))
    ensures r.Ok? ==> comm.intf.served == old(comm.intf.served) + [Read(SLOT_POS, SLOT_LEN)] + AliasReads(origSw)
    ensures r.Ok? ==> var h := old(comm.intf.sent) + [CommandFrame(ReadCommand(SLOT_POS, SLOT_LEN))];
                      var t := SetTimeCommand(comm.intf.clockMicros);
                      h + [CommandFrame(t)] <= comm.intf.sent && EqAnswer(ExchangeAfter(comm.intf, h, t), []) == Ok(())
    ensures r.Ok? ==> |comm.intf.sent| > 0 && comm.intf.sent[|comm.intf.sent| - 1] == CommandFrame(COUNT_COMMAND) &&
                      CountAfter(comm.intf, comm.intf.sent[..|comm.intf.sent| - 1]) == Ok(first.offset)
    ensures comm.intf.boots == old(comm.intf.boots)
  {
    ghost var h := old(comm.intf.sent) + [CommandFrame(ReadCommand(SLOT_POS, SLOT_LEN))];
    var ready := SlotThenTime(comm);
    if ready.Err? {
      return Err(ready.error);
    }
    ghost var timed := comm.intf.sent;
    assert timed == h + [CommandFrame(SetTimeCommand(comm.intf.clockMicros))];
    r := AliasAndCount(comm, first, origSw);
    if r.Ok? {
      AppendAssoc(old(comm.intf.served), [Read(SLOT_POS, SLOT_LEN)], AliasReads(origSw));
    }
  }

  /** The end of `workflow` after the preparation: download into a fresh dump,
      then export and clear. */
  method Transfer(comm: CommBulk, clear: bool, meta: bool, id: Identity, exportFiles: seq<Fix> -> nat)
    returns (r: Result<Exit>, ghost n: nat, ghost g: nat, ghost blocks: seq<seq<byte>>)
    requires id.offset < U32_LIMIT
    modifies comm.intf
    ensures r.Ok? ==> ProbeStop(comm.intf.mem, id.offset, n) &&
                      g == BulkCount(EndOffset(comm.intf.mem, id.offset, n)) &&
                      blocks == DownloadBlocks(comm.intf.mem, g, LastHit(comm.intf.mem, id.offset, n).Some?)
    ensures r.Ok? ==> (r.value == NoFiles <==> exportFiles(PointsOf(blocks)) == 0)
    ensures r == Ok(Kept) ==> !clear
    ensures r == Ok(Cleared) ==> clear && comm.intf.boots == old(comm.intf.boots) + 1
    ensures r.Ok? && r.value != Cleared ==> comm.intf.boots == old(comm.intf.boots)
  {
    blocks := [];
    var dumper := new DataDump(exportFiles);
    var downloaded;
    downloaded, n, g := Download(comm, id.offset, dumper);
    if downloaded.Err? {
      return Err(downloaded.error), n, g, blocks;
    }
    blocks := dumper.blocks;
    r := Finish(comm, clear, meta, id, dumper);
  }

  /** `workflow`: identify a GT-120, check the slot and set the time, read the
      alias and check the count, download every block with data into a fresh dump,
      export it, and clear the device when asked to. `first` is the first
      identification, `n` the number of probes and `g` the number of bulk
      doublets; `blocks` are the blocks fed to the dump. */
  method Workflow(comm: CommBulk, clear: bool, origSw: bool, meta: bool, exportFiles: seq<Fix> -> nat)
    returns (r: Result<Exit>, ghost first: Result<Identity>, ghost n: nat, ghost g: nat, ghost blocks: seq<seq<byte>>)
    modifies comm.intf
    ensures first == IdentifyAfter(comm.intf, old(comm.intf.sent), meta)
    ensures first.Err? ==> r == Err(first.error)
    ensures first.Ok? && first.value.model != Gt120 ==> r == Err(UnsupportedModel)
    ensures r.Ok? ==> first.Ok? && first.value.model == Gt120 && SlotErased(comm.intf.mem)
    ensures r.Ok? ==> ProbeStop(comm.intf.mem, first.value.offset, n) &&
                      g == BulkCount(EndOffset(comm.intf.mem, first.value.offset, n)) &&
                      blocks == DownloadBlocks(comm.intf.mem, g, LastHit(comm.intf.mem, first.value.offset, n).Some?)
    ensures r.Ok? ==> (r.value == NoFiles <==> exportFiles(PointsOf(blocks)) == 0)
    ensures r == Ok(Kept) ==> !clear
    ensures r == Ok(Cleared) ==> clear && comm.intf.boots == old(comm.intf.boots) + 1
    ensures r.Ok? && r.value != Cleared ==> comm.intf.boots == old(comm.intf.boots)
  {
    n, g, blocks := 0, 0, [];
    var ident := Identify(comm, meta);
    first := ident;
    if ident.Err? {
      return Err(ident.error), first, n, g, blocks;
    }
    if ident.value.model != Gt120 {
      return Err(UnsupportedModel), first, n, g, blocks;
    }
    IdentifyOffset(comm.intf, old(comm.intf.sent), meta);
    var id := Prepare(comm, ident.value, origSw);
    if id.Err? {
      return Err(id.error), first, n, g, blocks;
    }
    r, n, g, blocks := Transfer(comm, clear, meta, id.value, exportFiles);
  }
}
