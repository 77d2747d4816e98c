/** Shared vocabulary of the model: bytes, the failure-compatible result type used in
    place of the source's panics and `Result`s, and the byte-sequence arithmetic
    (wrapping sums, little- and big-endian integers) that the protocol is built on. */
module Common {

  /** An unsigned 8-bit value (`u8`). */
  type byte = x: int | 0 <= x < 256

  /** An unsigned 64-bit value (`u64`). */
  type u64 = x: int | 0 <= x < 0x1_0000_0000_0000_0000

  const U16_LIMIT: nat := 0x1_0000
  const U32_LIMIT: nat := 0x1_0000_0000
  const U64_LIMIT: nat := 0x1_0000_0000_0000_0000

  /** Why a parse of an integer failed (`std::num::IntErrorKind`). */
  datatype IntErrorKind = Empty | InvalidDigit | PosOverflow

  /** Every way the modelled code can fail. In the source each of these is a
      `panic!`, an `assert!`, an `unwrap` or an `Err`; the model returns it. */
  datatype Error =
    | CommandTooLong(len: nat)
    | ShortAnswer(len: nat)
    | BadPrefix(prefix: byte)
    | ChecksumMismatch(found: byte, computed: byte)
    | LengthMismatch(declared: nat, payloadLen: nat)
    | WrongAnswer(received: seq<byte>, wanted: seq<byte>)
    | UnexpectedAnswer(answer: seq<byte>)
    | UnknownModelCode(code: byte)
    | UnknownIdentModel(model: nat)
    | UnsupportedModel
    | UnknownDeviceState
    | OffsetChanged(first: nat, again: nat)
    | ModelChanged
    | IdentityChanged
    | Overflow
    | BlockSize(len: nat)
    | RecordOutOfBounds(pos: nat)
    | InvalidTimestamp
    | TransfersExhausted
    | FragmentTooShort(len: nat)
    | DeviceNotFound
    | ScansExhausted
    | ScriptExhausted
    | NotACommand(lineNum: nat)
    | CommandMismatch(lineNum: nat)
    | NotAResponse(lineNum: nat)
    | BadHex(lineNum: nat)
    | NoTimeInComment
    | BadTimeValue
    | ParseInt(kind: IntErrorKind)
    | EmptyAfterFilter

  datatype Option<T> = None | Some(value: T)

  datatype Result<T> = Ok(value: T) | Err(error: Error) {
    predicate IsFailure() { Err? }

    function PropagateFailure<U>(): Result<U>
      requires Err?
    {
      Err(error)
    }

    function Extract(): T
      requires Ok?
    {
      value
    }
  }

  /** Arithmetic sum of the bytes. */
  function Sum(s: seq<byte>): nat
  {
    if s == [] then 0 else Sum(s[..|s| - 1]) + s[|s| - 1]
  }

  /** The sum of the first `n` bytes, by index; equal to `Sum(s[..n])`. */
  function SumTo(s: seq<byte>, n: nat): nat
    requires n <= |s|
  {
    if n == 0 then 0 else SumTo(s, n - 1) + s[n - 1]
  }

  lemma {:induction false} SumToIsSum(s: seq<byte>, n: nat)
    requires n <= |s|
    ensures SumTo(s, n) == Sum(s[..n])
  {
    if n > 0 {
      assert s[..n][..n - 1] == s[..n - 1];
      SumToIsSum(s, n - 1);
    }
  }

  /** `s.iter().fold(0u8, |sum, i| sum.wrapping_add(*i))` */
  function WrappingSum(s: seq<byte>): byte
  {
    if s == [] then 0 else (WrappingSum(s[..|s| - 1]) + s[|s| - 1]) % 256
  }

  /** `0x00u8.wrapping_sub(x)`: the two's complement of `x`. */
  function WrappingNeg(x: byte): (r: byte)
    ensures (x + r) % 256 == 0
  {
    (256 - x) % 256
  }

  lemma {:induction false} WrappingSumIsSumMod(s: seq<byte>)
    ensures WrappingSum(s) == Sum(s) % 256
  {
    if s != [] {
      WrappingSumIsSumMod(s[..|s| - 1]);
    }
  }

  lemma {:induction false} SumAppend(a: seq<byte>, b: seq<byte>)
    ensures Sum(a + b) == Sum(a) + Sum(b)
  {
    if b == [] {
      assert a + b == a;
    } else {
      assert (a + b)[..|a + b| - 1] == a + b[..|b| - 1];
      SumAppend(a, b[..|b| - 1]);
    }
  }

  lemma {:induction false} SumZeros(n: nat)
    ensures Sum(Zeros(n)) == 0
  {
    if n > 0 {
      assert Zeros(n)[..n - 1] == Zeros(n - 1);
      SumZeros(n - 1);
    }
  }

  /** `n` zero bytes. */
  function Zeros(n: nat): (r: seq<byte>)
    ensures |r| == n && forall i :: 0 <= i < n ==> r[i] == 0
  {
    seq(n, _ => 0)
  }

  /** `vec![0xff; n]` */
  function Erased(n: nat): (r: seq<byte>)
    ensures |r| == n && forall i :: 0 <= i < n ==> r[i] == 0xFF
  {
    seq(n, _ => 0xFF)
  }

  function Pow256(n: nat): (r: nat)
    ensures r > 0
  {
    if n == 0 then 1 else 256 * Pow256(n - 1)
  }

  /** The unsigned integer whose little-endian encoding is `s` (`from_le_bytes`). */
  function LeValue(s: seq<byte>): nat
  {
    if s == [] then 0 else s[0] + 256 * LeValue(s[1..])
  }

  /** The unsigned integer whose big-endian encoding is `s` (`from_be_bytes`). */
  function BeValue(s: seq<byte>): nat
  {
    if s == [] then 0 else 256 * BeValue(s[..|s| - 1]) + s[|s| - 1]
  }

  /** The `n` low-order bytes of `x`, least significant first (`to_le_bytes()[0..n]`). */
  function LeBytes(x: nat, n: nat): (r: seq<byte>)
    ensures |r| == n
  {
    if n == 0 then [] else [x % 256] + LeBytes(x / 256, n - 1)
  }

  /** The `n` low-order bytes of `x`, most significant first. */
  function BeBytes(x: nat, n: nat): (r: seq<byte>)
    ensures |r| == n
  {
    if n == 0 then [] else BeBytes(x / 256, n - 1) + [x % 256]
  }

  lemma BeValue2(s: seq<byte>)
    requires |s| == 2
    ensures BeValue(s) == 256 * (s[0] as int) + s[1]
  {
    assert BeValue(s[..1]) == s[0] by {
      assert s[..1][..0] == [];
    }
  }

  lemma BeValue4(s: seq<byte>)
    requires |s| == 4
    ensures BeValue(s) == 16777216 * (s[0] as int) + 65536 * (s[1] as int) + 256 * (s[2] as int) + s[3]
  {
    var t := s[..3];
    assert t[..2] == s[..2];
    BeValue2(s[..2]);
  }

  lemma LeValue2(s: seq<byte>)
    requires |s| == 2
    ensures LeValue(s) == s[0] + 256 * (s[1] as int)
  {
    assert LeValue(s[1..]) == s[1] by {
      assert s[1..][1..] == [];
    }
  }

  lemma LeValue4(s: seq<byte>)
    requires |s| == 4
    ensures LeValue(s) == s[0] + 256 * (s[1] as int) + 65536 * (s[2] as int) + 16777216 * (s[3] as int)
  {
    var t := s[1..];
    assert LeValue(t[1..]) == t[1] + 256 * (t[2] as int) by {
      LeValue2(t[1..]);
    }
  }

  lemma {:induction false} LeValueBound(s: seq<byte>)
    ensures LeValue(s) < Pow256(|s|)
  {
    if s != [] {
      LeValueBound(s[1..]);
    }
  }

  lemma LeValueBound6(s: seq<byte>)
    requires |s| == 6
    ensures LeValue(s) < 0x1_0000_0000_0000
  {
    LeValueBound(s);
    assert Pow256(6) == 0x1_0000_0000_0000;
  }

  lemma {:induction false} LeRoundTrip(x: nat, n: nat)
    ensures LeValue(LeBytes(x, n)) == x % Pow256(n)
  {
    if n > 0 {
      LeRoundTrip(x / 256, n - 1);
      assert LeBytes(x, n)[1..] == LeBytes(x / 256, n - 1);
      ModSplit(x, 256, Pow256(n - 1));
    }
  }

  lemma {:induction false} BeRoundTrip(x: nat, n: nat)
    ensures BeValue(BeBytes(x, n)) == x % Pow256(n)
  {
    if n > 0 {
      BeRoundTrip(x / 256, n - 1);
      assert BeBytes(x, n)[..n - 1] == BeBytes(x / 256, n - 1);
      ModSplit(x, 256, Pow256(n - 1));
    }
  }

  /** Division with remainder is unique. */
  lemma DivModUnique(x: int, m: int, q: int, r: int)
    requires m > 0 && 0 <= r < m && x == m * q + r
    ensures x / m == q && x % m == r
  {
    var q0, r0 := x / m, x % m;
    assert m * (q0 - q) == r - r0;
    if q0 - q >= 1 {
      MulMono(m, q0 - q);
    } else if q - q0 >= 1 {
      MulMono(m, q - q0);
    }
  }

  lemma MulMono(m: int, k: int)
    requires m > 0 && k >= 1
    ensures m * k >= m
  {
  }

  /** x mod (a*b) is x mod a plus a times ((x / a) mod b). */
  lemma ModSplit(x: nat, a: nat, b: nat)
    requires a > 0 && b > 0
    ensures x % (a * b) == x % a + a * ((x / a) % b)
  {
    var q, r := x / a, x % a;
    var q2, r2 := q / b, q % b;
    assert x == (a * b) * q2 + (a * r2 + r) by {
      assert x == a * q + r;
      assert q == b * q2 + r2;
      assert a * q == a * (b * q2) + a * r2;
      assert a * (b * q2) == (a * b) * q2;
    }
    assert a * r2 + r < a * b by {
      assert r2 <= b - 1;
      assert a * r2 <= a * (b - 1) by { MulLe(a, r2, b - 1); }
      assert a * (b - 1) == a * b - a;
    }
    DivModUnique(x, a * b, q2, a * r2 + r);
  }

  lemma MulLe(a: nat, x: int, y: int)
    requires x <= y
    ensures a * x <= a * y
  {
  }

  lemma MulSwap(k: int, h: int, q: int)
    ensures k * (h * q) == h * (k * q)
  {
  }

  lemma MulAssoc(a: int, b: int, c: int)
    ensures a * (b * c) == (a * b) * c
  {
  }

  lemma MulAddRight(a: int, b: int, c: int)
    ensures (a + b) * c == a * c + b * c
  {
  }

  function Concat<T>(parts: seq<seq<T>>): seq<T>
  {
    if parts == [] then [] else Concat(parts[..|parts| - 1]) + parts[|parts| - 1]
  }

  lemma {:induction false} ConcatAppend<T>(parts: seq<seq<T>>, p: seq<T>)
    ensures Concat(parts + [p]) == Concat(parts) + p
  {
    assert (parts + [p])[..|parts|] == parts;
  }

  /** Concatenation distributes over joining the lists of parts. */
  lemma {:induction false} ConcatJoin<T>(a: seq<seq<T>>, b: seq<seq<T>>)
    ensures Concat(a + b) == Concat(a) + Concat(b)
  {
    if b == [] {
      assert a + b == a;
    } else {
      var init, ab := b[..|b| - 1], a + b;
      ConcatJoin(a, init);
      assert ab[..|ab| - 1] == a + init;
      assert Concat(ab) == Concat(a + init) + b[|b| - 1];
    }
  }

  predicate StartsWith<T(==)>(s: seq<T>, prefix: seq<T>)
  {
    |prefix| <= |s| && s[..|prefix|] == prefix
  }
}
