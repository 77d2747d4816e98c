/** The framing codec of src/comm_bulk.rs: outgoing commands are padded to a fixed
    16-byte frame ending in a checksum byte; incoming answers carry the prefix 0x93,
    a big-endian payload length, the payload and a checksum byte. */
module Framing {
  import opened Common

  const ANSWER_PREFIX: byte := 0x93
  const FRAME_LEN: nat := 16

  /** The last byte of `s` is the two's complement of the wrapping sum of the others. */
  predicate ChecksumOk(s: seq<byte>)
    requires |s| > 0
  {
    s[|s| - 1] == WrappingNeg(WrappingSum(s[..|s| - 1]))
  }

  /** A checksum byte is correct exactly when all bytes together sum to 0 mod 256. */
  lemma ChecksumOkIffSumZero(s: seq<byte>)
    requires |s| > 0
    ensures ChecksumOk(s) <==> Sum(s) % 256 == 0
  {
    var init := s[..|s| - 1];
    var last: int := s[|s| - 1];
    assert s == init + [s[|s| - 1]];
    SumAppend(init, [s[|s| - 1]]);
    WrappingSumIsSumMod(init);
    assert Sum([s[|s| - 1]]) == last by {
      assert [s[|s| - 1]][..0] == [];
    }
    var w: int := Sum(init) % 256;
    ModAddLeft(Sum(init), last);
    NegUnique(w, last);
  }

  /** The checksum test by index sums. */
  lemma ChecksumOkSumTo(s: seq<byte>)
    requires |s| > 0
    ensures ChecksumOk(s) <==> SumTo(s, |s|) % 256 == 0
  {
    ChecksumOkIffSumZero(s);
    SumToIsSum(s, |s|);
    assert s[..|s|] == s;
  }

  lemma ModAddLeft(a: nat, b: nat)
    ensures (a + b) % 256 == (a % 256 + b) % 256
  {
    DivModUnique(a, 256, a / 256, a % 256);
    var q, r := (a % 256 + b) / 256, (a % 256 + b) % 256;
    DivModUnique(a + b, 256, a / 256 + q, r);
  }

  lemma NegUnique(w: int, x: int)
    requires 0 <= w < 256 && 0 <= x < 256
    ensures (w + x) % 256 == 0 <==> x == (256 - w) % 256
  {
  }

  /** The frame that `pad_and_checksum` makes of a command shorter than 16 bytes:
      the command, zeros up to index 14, and the checksum at index 15. */
  function CommandFrame(cmd: seq<byte>): (f: seq<byte>)
    requires |cmd| < FRAME_LEN
    ensures |f| == FRAME_LEN
    ensures f[..|cmd|] == cmd
    ensures forall i :: |cmd| <= i < FRAME_LEN - 1 ==> f[i] == 0
    ensures Sum(f) % 256 == 0
  {
    var padded := cmd + Zeros(FRAME_LEN - 1 - |cmd|);
    var f := padded + [WrappingNeg(WrappingSum(padded))];
    assert f[..|f| - 1] == padded;
    ChecksumOkIffSumZero(f);
    f
  }

  /** The frame of a command spelled out: the command, the zero padding and the
      negated sum of the command's bytes. */
  lemma CommandFrameExplicit(cmd: seq<byte>)
    requires |cmd| < FRAME_LEN
    ensures CommandFrame(cmd) == cmd + Zeros(FRAME_LEN - 1 - |cmd|) + [WrappingNeg(SumTo(cmd, |cmd|) % 256)]
  {
    PaddedSum(cmd, Zeros(FRAME_LEN - 1 - |cmd|));
  }

  lemma PaddedSum(cmd: seq<byte>, z: seq<byte>)
    requires z == Zeros(|z|)
    ensures WrappingSum(cmd + z) == SumTo(cmd, |cmd|) % 256
  {
    WrappingSumIsSumMod(cmd + z);
    SumAppend(cmd, z);
    SumZeros(|z|);
    SumToIsSum(cmd, |cmd|);
    assert cmd[..|cmd|] == cmd;
  }

  /** `pad_and_checksum`: resize the command to 15 bytes with zeros and push the
      checksum; a command of 16 bytes or more fails the assertion (never truncated). */
  method PadAndChecksum(rawCommand: seq<byte>) returns (r: Result<seq<byte>>)
    ensures r.Err? <==> |rawCommand| >= FRAME_LEN
    ensures r.Err? ==> r.error == CommandTooLong(|rawCommand|)
    ensures r.Ok? ==> r.value == CommandFrame(rawCommand)
  {
    if |rawCommand| >= FRAME_LEN {
      return Err(CommandTooLong(|rawCommand|));
    }
    var command := rawCommand;
    command := command + Zeros(FRAME_LEN - 1 - |command|);
    var sum := WrappingSum(command);
    command := command + [WrappingNeg(sum)];
    r := Ok(command);
  }

  /** `verify_answer_checksum_extract_payload`, with each panic as an error: the
      prefix is checked first, then the checksum, then the declared length. */
  function VerifyAnswer(answer: seq<byte>): (r: Result<seq<byte>>)
    ensures answer == [] ==> r.Err?
    ensures |answer| > 0 && answer[0] != ANSWER_PREFIX ==> r == Err(BadPrefix(answer[0]))
    ensures |answer| > 0 && answer[0] == ANSWER_PREFIX && !ChecksumOk(answer) ==>
              r.Err? && r.error.ChecksumMismatch?
    ensures |answer| >= 4 && answer[0] == ANSWER_PREFIX && ChecksumOk(answer) &&
            BeValue(answer[1..3]) != |answer| - 4 ==>
              r == Err(LengthMismatch(BeValue(answer[1..3]), |answer| - 4))
    ensures r.Ok? <==> |answer| >= 4 && answer[0] == ANSWER_PREFIX && ChecksumOk(answer) &&
                       BeValue(answer[1..3]) == |answer| - 4
    ensures r.Ok? ==> r.value == answer[3..|answer| - 1] && |r.value| == BeValue(answer[1..3])
  {
    if answer == [] then Err(ShortAnswer(0))
    else if answer[0] != ANSWER_PREFIX then Err(BadPrefix(answer[0]))
    else
      var expected := WrappingNeg(WrappingSum(answer[..|answer| - 1]));
      var actual := answer[|answer| - 1];
      if actual != expected then Err(ChecksumMismatch(actual, expected))
      else if |answer| < 4 then Err(ShortAnswer(|answer|))
      else
        var payloadSize := BeValue(answer[1..3]);
        if payloadSize != |answer| - 4 then Err(LengthMismatch(payloadSize, |answer| - 4))
        else Ok(answer[3..|answer| - 1])
  }

  /** The well-formed answer frame carrying `payload`. */
  function AnswerFrame(payload: seq<byte>): (a: seq<byte>)
    requires |payload| < U16_LIMIT
    ensures |a| == |payload| + 4 && a[0] == ANSWER_PREFIX
    ensures a[3..|a| - 1] == payload
    ensures a[..3] == [ANSWER_PREFIX] + BeBytes(|payload|, 2)
  {
    var header := [ANSWER_PREFIX] + BeBytes(|payload|, 2);
    var body := header + payload;
    body + [WrappingNeg(WrappingSum(body))]
  }

  /** Round trip: the frame built around a payload verifies to exactly that payload. */
  lemma AnswerRoundTrip(payload: seq<byte>)
    requires |payload| < U16_LIMIT
    ensures VerifyAnswer(AnswerFrame(payload)) == Ok(payload)
  {
    var a := AnswerFrame(payload);
    var body := [ANSWER_PREFIX] + BeBytes(|payload|, 2) + payload;
    assert a[..|a| - 1] == body;
    assert ChecksumOk(a);
    assert a[1..3] == BeBytes(|payload|, 2);
    BeRoundTrip(|payload|, 2);
  }

  /** And back: an answer that verifies to `payload` is the frame built around it. */
  lemma AnswerUnique(answer: seq<byte>)
    requires VerifyAnswer(answer).Ok?
    ensures |VerifyAnswer(answer).value| < U16_LIMIT
    ensures answer == AnswerFrame(VerifyAnswer(answer).value)
  {
    var p := VerifyAnswer(answer).value;
    var hi: nat, lo: nat := answer[1], answer[2];
    BeValue2(answer[1..3]);
    assert |p| == 256 * hi + lo;
    var f := AnswerFrame(p);
    assert BeBytes(|p|, 2) == [hi, lo] by {
      DivModUnique(|p|, 256, hi, lo);
      assert (|p| / 256) / 256 == 0;
      assert (|p| / 256) % 256 == hi;
    }
    assert f[..|f| - 1] == answer[..|answer| - 1];
    assert f[|f| - 1] == answer[|answer| - 1];
  }

  /** `check_full_answer`: the received payload must equal the expected bytes. */
  function CheckFullAnswer(answer: seq<byte>, expected: seq<byte>): (r: Result<()>)
    ensures r.Ok? <==> answer == expected
    ensures r.Err? ==> r.error == WrongAnswer(answer, expected)
  {
    if answer != expected then Err(WrongAnswer(answer, expected)) else Ok(())
  }
}
