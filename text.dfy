/** Character-level helpers: Rust's decimal and hexadecimal formatting of unsigned
    integers, their inverses, hex decoding of byte strings, and the whitespace sets
    used by Rust's `trim` and Python's `rstrip`. */
module Text {
  import opened Common

  predicate IsDigit(c: char)
  {
    '0' <= c <= '9'
  }

  function DigitChar(d: nat): (c: char)
    requires d < 10
    ensures IsDigit(c)
  {
    ('0' as int + d) as char
  }

  function DigitValue(c: char): (d: nat)
    requires IsDigit(c)
    ensures d < 10
  {
    c as int - '0' as int
  }

  predicate AllDigits(s: string)
  {
    forall i :: 0 <= i < |s| ==> IsDigit(s[i])
  }

  /** The value of a string of decimal digits. */
  function DecimalValue(s: string): nat
    requires AllDigits(s)
  {
    if s == [] then 0 else 10 * DecimalValue(s[..|s| - 1]) + DigitValue(s[|s| - 1])
  }

  /** Rust's `{}` formatting of an unsigned integer: its decimal digits, without
      leading zeros. */
  function DecimalString(n: nat): string
  {
    if n < 10 then [DigitChar(n)] else DecimalString(n / 10) + [DigitChar(n % 10)]
  }

  /** The formatted number is a nonempty digit string with no leading zero, and it
      denotes the number. */
  lemma {:induction false} DecimalRoundTrip(n: nat)
    ensures 1 <= |DecimalString(n)| && AllDigits(DecimalString(n))
    ensures DecimalString(n)[0] == '0' ==> n == 0
    ensures DecimalValue(DecimalString(n)) == n
  {
    if n >= 10 {
      var s := DecimalString(n);
      DecimalRoundTrip(n / 10);
      assert s[..|s| - 1] == DecimalString(n / 10);
    }
  }

  /** Rust's `{:0w}`: the string padded on the left with '0' up to width `w`. */
  function ZeroPad(s: string, w: nat): (r: string)
    ensures |r| == if |s| < w then w else |s|
  {
    if |s| < w then seq(w - |s|, _ => '0') + s else s
  }

  /** Padding keeps the string as a suffix and adds only '0's in front of it. */
  lemma ZeroPadForm(s: string, w: nat)
    ensures ZeroPad(s, w)[|ZeroPad(s, w)| - |s|..] == s
    ensures forall i :: 0 <= i < |ZeroPad(s, w)| - |s| ==> ZeroPad(s, w)[i] == '0'
  {
  }

  lemma {:induction false} LeadingZerosValue(z: nat, s: string)
    requires AllDigits(s)
    ensures AllDigits(seq(z, _ => '0') + s)
    ensures DecimalValue(seq(z, _ => '0') + s) == DecimalValue(s)
  {
    var zs: string := seq(z, _ => '0');
    if s == [] {
      assert zs + s == zs;
      AllZerosValue(z);
    } else {
      var init := s[..|s| - 1];
      assert (zs + s)[..|zs + s| - 1] == zs + init;
      LeadingZerosValue(z, init);
    }
  }

  lemma {:induction false} AllZerosValue(z: nat)
    ensures AllDigits(seq(z, _ => '0'))
    ensures DecimalValue(seq(z, _ => '0')) == 0
  {
    if z > 0 {
      var zs: string := seq(z, _ => '0');
      assert zs[..z - 1] == seq(z - 1, _ => '0');
      AllZerosValue(z - 1);
    }
  }

  /** Zero padding does not change the number a digit string denotes. */
  lemma ZeroPadValue(s: string, w: nat)
    requires AllDigits(s)
    ensures AllDigits(ZeroPad(s, w)) && DecimalValue(ZeroPad(s, w)) == DecimalValue(s)
  {
    if |s| < w {
      LeadingZerosValue(w - |s|, s);
    }
  }

  function HexDigitUpper(d: nat): (c: char)
    requires d < 16
  {
    if d < 10 then ('0' as int + d) as char else ('A' as int + d - 10) as char
  }

  /** The value of a hexadecimal digit of either case, if `c` is one. */
  function HexDigitValue(c: char): (r: Option<nat>)
    ensures r.Some? ==> r.value < 16
  {
    if '0' <= c <= '9' then Some(c as int - '0' as int)
    else if 'a' <= c <= 'f' then Some(c as int - 'a' as int + 10)
    else if 'A' <= c <= 'F' then Some(c as int - 'A' as int + 10)
    else None
  }

  function Pow16(n: nat): (r: nat)
    ensures r > 0
  {
    if n == 0 then 1 else 16 * Pow16(n - 1)
  }

  /** Exactly `w` upper-case hexadecimal digits of `n`: Rust's `{:0wX}` when
      `n < 16^w`. */
  function HexFixed(n: nat, w: nat): (s: string)
    ensures |s| == w
  {
    if w == 0 then [] else HexFixed(n / 16, w - 1) + [HexDigitUpper(n % 16)]
  }

  predicate AllHexDigits(s: string)
  {
    forall i :: 0 <= i < |s| ==> HexDigitValue(s[i]).Some?
  }

  /** The value of a string of hexadecimal digits. */
  function HexValue(s: string): nat
    requires AllHexDigits(s)
  {
    if s == [] then 0 else 16 * HexValue(s[..|s| - 1]) + HexDigitValue(s[|s| - 1]).value
  }

  /** The fixed-width digits denote `n` modulo 16^w (exactly `n` when it fits). */
  lemma {:induction false} HexRoundTrip(n: nat, w: nat)
    ensures AllHexDigits(HexFixed(n, w))
    ensures HexValue(HexFixed(n, w)) == n % Pow16(w)
  {
    if w > 0 {
      var s := HexFixed(n, w);
      assert s[..w - 1] == HexFixed(n / 16, w - 1);
      HexRoundTrip(n / 16, w - 1);
      assert HexDigitValue(HexDigitUpper(n % 16)) == Some(n % 16);
      ModSplit(n, 16, Pow16(w - 1));
    }
  }

  /** Two hex digits render a byte exactly. */
  lemma HexByteRoundTrip(x: byte)
    ensures AllHexDigits(HexFixed(x, 2)) && HexValue(HexFixed(x, 2)) == x
  {
    HexRoundTrip(x, 2);
    assert Pow16(2) == 256;
  }

  /** Twelve hex digits render 48 bits exactly. */
  lemma Hex12RoundTrip(n: nat)
    ensures AllHexDigits(HexFixed(n, 12)) && HexValue(HexFixed(n, 12)) == n % 0x1_0000_0000_0000
  {
    HexRoundTrip(n, 12);
    assert Pow16(4) == 0x1_0000;
    assert Pow16(8) == 0x1_0000_0000;
  }

  /** `hex::decode`: an even number of hex digits of either case, two per byte. */
  function HexDecode(s: string): (r: Option<seq<byte>>)
    ensures r.Some? ==> |s| % 2 == 0 && |r.value| == |s| / 2
    decreases |s|
  {
    if |s| % 2 != 0 then None
    else if s == [] then Some([])
    else
      var hi := HexDigitValue(s[0]);
      var lo := HexDigitValue(s[1]);
      if hi.None? || lo.None? then None
      else
        var rest := HexDecode(s[2..]);
        if rest.None? then None else Some([16 * hi.value + lo.value] + rest.value)
  }

  function HexDigitLower(d: nat): char
    requires d < 16
  {
    if d < 10 then ('0' as int + d) as char else ('a' as int + d - 10) as char
  }

  lemma HexDigitLowerValue(d: nat)
    requires d < 16
    ensures HexDigitValue(HexDigitLower(d)) == Some(d)
  {
  }

  /** Two lower-case hex digits per byte (`hex::encode`). */
  function HexEncode(b: seq<byte>): (s: string)
    ensures |s| == 2 * |b|
  {
    if b == [] then [] else [HexDigitLower(b[0] / 16), HexDigitLower(b[0] % 16)] + HexEncode(b[1..])
  }

  /** Decoding undoes encoding. */
  lemma {:induction false} HexDecodeEncode(b: seq<byte>)
    ensures HexDecode(HexEncode(b)) == Some(b)
  {
    if b != [] {
      var s := HexEncode(b);
      var hi: nat, lo: nat := b[0] / 16, b[0] % 16;
      assert s[0] == HexDigitLower(hi) && s[1] == HexDigitLower(lo);
      assert s[2..] == HexEncode(b[1..]);
      HexDecodeEncode(b[1..]);
      HexDigitLowerValue(hi);
      HexDigitLowerValue(lo);
      assert 16 * hi + lo == b[0];
      assert HexDecode(s) == Some([16 * hi + lo] + b[1..]);
      assert [b[0]] + b[1..] == b;
    }
  }

  /** Unicode `White_Space`, the set that Rust's `str::trim` removes. */
  predicate IsRustWhitespace(c: char)
  {
    ('\U{0009}' <= c <= '\U{000D}') || c == ' ' || c == '\U{0085}' || c == '\U{00A0}' ||
    c == '\U{1680}' || ('\U{2000}' <= c <= '\U{200A}') || c == '\U{2028}' || c == '\U{2029}' ||
    c == '\U{202F}' || c == '\U{205F}' || c == '\U{3000}'
  }

  /** The characters for which Python's `str.isspace` holds, which `str.rstrip`
      removes: Unicode `White_Space` plus the four separators U+001C..U+001F. */
  predicate IsPythonWhitespace(c: char)
  {
    IsRustWhitespace(c) || ('\U{001C}' <= c <= '\U{001F}')
  }

  /** `str::trim`: leading and trailing Rust whitespace removed. */
  function Trim(s: string): (r: string)
    ensures |r| == 0 || (!IsRustWhitespace(r[0]) && !IsRustWhitespace(r[|r| - 1]))
  {
    TrimEnd(TrimStart(s))
  }

  function TrimStart(s: string): (r: string)
    ensures |r| <= |s| && r == s[|s| - |r|..]
    ensures |r| == 0 || !IsRustWhitespace(r[0])
    ensures forall i :: 0 <= i < |s| - |r| ==> IsRustWhitespace(s[i])
  {
    if s != [] && IsRustWhitespace(s[0]) then
      var t := TrimStart(s[1..]);
      assert forall i :: 1 <= i < |s| - |t| ==> s[i] == s[1..][i - 1];
      assert s[|s| - |t|..] == s[1..][|s| - 1 - |t|..];
      t
    else s
  }

  function TrimEnd(s: string): (r: string)
    ensures |r| <= |s| && r == s[..|r|]
    ensures |r| == 0 || !IsRustWhitespace(r[|r| - 1])
    ensures forall i :: |r| <= i < |s| ==> IsRustWhitespace(s[i])
  {
    if s != [] && IsRustWhitespace(s[|s| - 1]) then TrimEnd(s[..|s| - 1]) else s
  }

  /** Python's `str.rstrip()`: trailing Python whitespace removed. */
  function RStrip(s: string): (r: string)
    ensures |r| <= |s| && r == s[..|r|]
    ensures |r| == 0 || !IsPythonWhitespace(r[|r| - 1])
    ensures forall i :: |r| <= i < |s| ==> IsPythonWhitespace(s[i])
  {
    if s != [] && IsPythonWhitespace(s[|s| - 1]) then RStrip(s[..|s| - 1]) else s
  }

  /** `str::trim_end_matches(c)`: every trailing `c` removed. */
  function TrimEndMatches(s: string, c: char): (r: string)
    ensures |r| <= |s| && r == s[..|r|]
    ensures |r| == 0 || r[|r| - 1] != c
    ensures forall i :: |r| <= i < |s| ==> s[i] == c
  {
    if s != [] && s[|s| - 1] == c then TrimEndMatches(s[..|s| - 1], c) else s
  }

  /** The characters U+0000..U+00FF with the values of the bytes (ISO 8859-1). */
  function Latin1(b: seq<byte>): (s: string)
    ensures |s| == |b| && forall i :: 0 <= i < |b| ==> s[i] as int == b[i]
  {
    seq(|b|, i requires 0 <= i < |b| => b[i] as char)
  }

  /** `pat` occurs in `s` starting at index `j`. */
  predicate OccursAt(s: string, pat: string, j: nat)
  {
    j + |pat| <= |s| && s[j..j + |pat|] == pat
  }

  /** The index of the first occurrence of `pat` in `s`, if any (`str::find`). */
  function Find(s: string, pat: string): (r: Option<nat>)
    ensures r.Some? ==> OccursAt(s, pat, r.value)
    ensures r.Some? ==> forall j: nat :: j < r.value ==> !OccursAt(s, pat, j)
    ensures r.None? ==> forall j: nat :: !OccursAt(s, pat, j)
  {
    FindFrom(s, pat, 0)
  }

  function FindFrom(s: string, pat: string, from: nat): (r: Option<nat>)
    requires from <= |s| + 1
    ensures r.Some? ==> from <= r.value && OccursAt(s, pat, r.value)
    ensures r.Some? ==> forall j: nat :: from <= j < r.value ==> !OccursAt(s, pat, j)
    ensures r.None? ==> forall j: nat :: from <= j ==> !OccursAt(s, pat, j)
    decreases |s| + 1 - from
  {
    if from + |pat| > |s| then None
    else if s[from..from + |pat|] == pat then Some(from)
    else FindFrom(s, pat, from + 1)
  }
}
