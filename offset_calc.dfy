/** tmp/offset-calculation/calc.rs: the count-to-offset formula reconstructed from
    five logged input/output pairs, and its entry point that takes the two count
    bytes as hexadecimal strings. `calculate_out` is the same u32 expression as
    `calculate_offset_from_count` and is modelled by `Commands.CalculateOffsetFromCount`. */
module OffsetCalc {
  import opened Common
  import opened Text
  import opened Commands

  /** Every offset is a 4 KiB block boundary between 0x1000 and 0x800000, so the u32
      arithmetic never wraps. */
  lemma OffsetBounds(b: byte, c: byte)
    ensures var r := CalculateOffsetFromCount(b, c);
      r % 0x1000 == 0 && 0x1000 <= r <= 0x80_0000
  {
    var k := 8 * b + c / 32 + 1;
    assert 1 <= k <= 0x800;
    DivModUnique(0x1000 * k, 0x1000, k, 0);
  }

  /** Two count answers give the same offset exactly when they agree in `b` and in
      the top three bits of `c`: the low five bits of `c` never matter. */
  lemma OffsetInjective(b1: byte, c1: byte, b2: byte, c2: byte)
    ensures CalculateOffsetFromCount(b1, c1) == CalculateOffsetFromCount(b2, c2) <==>
            b1 == b2 && c1 / 32 == c2 / 32
  {
    if CalculateOffsetFromCount(b1, c1) == CalculateOffsetFromCount(b2, c2) {
      var k1, k2 := c1 / 32, c2 / 32;
      assert 8 * b1 + k1 == 8 * b2 + k2;
      DivModUnique(8 * b1 + k1, 8, b1, k1);
      DivModUnique(8 * b1 + k1, 8, b2, k2);
    }
  }

  /** The number behind an optional leading '+': what `u8::from_str_radix` reads as
      digits once it has found the string nonempty. */
  function DigitPart(s: string): string
  {
    if |s| > 0 && s[0] == '+' then s[1..] else s
  }

  /** `u8::from_str_radix(s, 16)`: an empty string is `Empty`; a lone sign is
      `InvalidDigit`; after an optional '+' the digits are read left to right, each
      failing with `InvalidDigit` if it is not a hex digit and with `PosOverflow` as
      soon as the value exceeds 255. */
  function ParseHexU8(s: string): (r: Result<byte>)
    ensures s == [] ==> r == Err(ParseInt(Empty))
    ensures r.Err? ==> r.error.ParseInt?
  {
    if s == [] then Err(ParseInt(Empty))
    else if |s| == 1 && (s[0] == '+' || s[0] == '-') then Err(ParseInt(InvalidDigit))
    else ParseHexDigits(DigitPart(s), 0)
  }

  /** The digit loop of `from_str_radix` with the u8 accumulator `acc`. */
  function ParseHexDigits(d: string, acc: byte): (r: Result<byte>)
    ensures r.Err? ==> r.error == ParseInt(InvalidDigit) || r.error == ParseInt(PosOverflow)
  {
    if d == [] then Ok(acc)
    else
      var x := HexDigitValue(d[0]);
      if x.None? then Err(ParseInt(InvalidDigit))
      else if acc * 16 + x.value > 255 then Err(ParseInt(PosOverflow))
      else ParseHexDigits(d[1..], acc * 16 + x.value)
  }

  /** The digit loop succeeds exactly on hex digits whose value, read after the
      digits already accumulated, fits a byte; the result is that value. */
  lemma {:induction false} ParseHexDigitsMeaning(d: string, acc: byte)
    ensures ParseHexDigits(d, acc).Ok? <==>
            AllHexDigits(d) && acc * Pow16(|d|) + HexValue(d) < 256
    ensures ParseHexDigits(d, acc).Ok? ==>
            ParseHexDigits(d, acc).value == acc * Pow16(|d|) + HexValue(d)
  {
    if d != [] {
      var rest := d[1..];
      var x := HexDigitValue(d[0]);
      if x.None? {
        assert !AllHexDigits(d);
      } else {
        var v: nat := x.value;
        var p := Pow16(|rest|);
        assert AllHexDigits(d) <==> AllHexDigits(rest) by {
          forall i | 0 <= i < |rest| ensures rest[i] == d[i + 1] { }
          if AllHexDigits(rest) {
            forall i | 0 <= i < |d| ensures HexDigitValue(d[i]).Some? {
              if i > 0 { assert d[i] == rest[i - 1]; }
            }
          }
        }
        if acc * 16 + v > 255 {
          if AllHexDigits(d) {
            HexValueCons(d);
            assert acc * Pow16(|d|) + HexValue(d) >= (acc * 16 + v) * p by {
              assert Pow16(|d|) == 16 * p;
              MulAssoc(acc, 16, p);
              MulAddRight(acc * 16, v, p);
            }
            assert (acc * 16 + v) * p >= 256 by { MulLe(acc * 16 + v, 1, p); }
          }
        } else {
          ParseHexDigitsMeaning(rest, acc * 16 + v);
          if AllHexDigits(d) {
            HexValueCons(d);
            assert acc * Pow16(|d|) + HexValue(d) == (acc * 16 + v) * p + HexValue(rest) by {
              assert Pow16(|d|) == 16 * p;
              MulAssoc(acc, 16, p);
              MulAddRight(acc * 16, v, p);
            }
          }
        }
      }
    }
  }

  /** Reading a hex string from the left: the first digit is worth 16^(digits after it). */
  lemma HexValueCons(d: string)
    requires |d| > 0 && AllHexDigits(d)
    ensures AllHexDigits(d[1..])
    ensures HexValue(d) == HexDigitValue(d[0]).value * Pow16(|d| - 1) + HexValue(d[1..])
  {
    var h, t := [d[0]], d[1..];
    assert h + t == d;
    AllHexDigitsAppend(h, t);
    assert h[..0] == [];
    assert HexValue(h) == HexDigitValue(d[0]).value;
    HexValueAppend(h, t);
  }

  lemma AllHexDigitsAppend(a: string, b: string)
    ensures AllHexDigits(a + b) <==> AllHexDigits(a) && AllHexDigits(b)
  {
    if AllHexDigits(a + b) {
      forall i | 0 <= i < |a| ensures HexDigitValue(a[i]).Some? {
        assert a[i] == (a + b)[i];
      }
      forall i | 0 <= i < |b| ensures HexDigitValue(b[i]).Some? {
        assert b[i] == (a + b)[|a| + i];
      }
    }
  }

  /** The value of a concatenation: the left part shifted by the digits of the right. */
  lemma {:induction false} HexValueAppend(a: string, b: string)
    requires AllHexDigits(a) && AllHexDigits(b)
    ensures AllHexDigits(a + b)
    ensures HexValue(a + b) == HexValue(a) * Pow16(|b|) + HexValue(b)
  {
    AllHexDigitsAppend(a, b);
    if b == [] {
      assert a + b == a;
    } else {
      var init, last := b[..|b| - 1], b[|b| - 1];
      assert b == init + [last];
      AllHexDigitsAppend(init, [last]);
      var ab := a + b;
      assert ab[..|ab| - 1] == a + init;
      assert ab[|ab| - 1] == last;
      HexValueAppend(a, init);
      var h: nat, q: nat, t: nat, x: nat := HexValue(a), Pow16(|init|), HexValue(init), HexDigitValue(last).value;
      assert HexValue(ab) == 16 * (h * q + t) + x;
      assert HexValue(b) == 16 * t + x;
      assert Pow16(|b|) == 16 * q;
      assert 16 * (h * q + t) + x == h * (16 * q) + (16 * t + x) by {
        MulSwap(16, h, q);
      }
    }
  }

  /** `from_str_radix(s, 16)` into a u8, stated outright: `Empty` for the empty
      string, and otherwise success exactly when the text after an optional '+' is
      a nonempty run of hex digits of value below 256, with that value. */
  lemma ParseHexU8Meaning(s: string)
    ensures ParseHexU8(s) == Err(ParseInt(Empty)) <==> s == []
    ensures ParseHexU8(s).Ok? <==>
            |DigitPart(s)| > 0 && AllHexDigits(DigitPart(s)) && HexValue(DigitPart(s)) < 256
    ensures ParseHexU8(s).Ok? ==> ParseHexU8(s).value == HexValue(DigitPart(s))
  {
    if s != [] {
      ParseHexDigitsMeaning(DigitPart(s), 0);
      if |s| == 1 && s[0] == '-' {
        assert HexDigitValue(s[0]).None?;
      }
    }
  }

  /** Two upper-case hex digits, as the logs print a byte, parse back to it. */
  lemma ParseHexU8RoundTrip(x: byte)
    ensures ParseHexU8(HexFixed(x, 2)) == Ok(x)
  {
    var s := HexFixed(x, 2);
    HexByteRoundTrip(x);
    assert HexDigitValue(s[0]).Some?;
    assert DigitPart(s) == s;
    ParseHexU8Meaning(s);
  }

  /** Two hex digits always fit a byte. */
  lemma ParseTwoDigits(s: string)
    requires |s| == 2 && HexDigitValue(s[0]).Some? && HexDigitValue(s[1]).Some?
    ensures ParseHexU8(s) == Ok(16 * HexDigitValue(s[0]).value + HexDigitValue(s[1]).value)
  {
    var hi, lo := HexDigitValue(s[0]).value, HexDigitValue(s[1]).value;
    assert DigitPart(s) == s;
    assert s[1..][1..] == [];
    assert ParseHexDigits(s[1..], hi) == Ok(16 * hi + lo);
  }

  /** `calculate_out_with_bitshift_ops`: both strings parsed as hex u8 (the first
      failure is returned), then the offset formula. */
  function CalculateOutWithBitshiftOps(in2Hex: string, in3Hex: string): (r: Result<nat>)
    ensures r.Ok? <==> ParseHexU8(in2Hex).Ok? && ParseHexU8(in3Hex).Ok?
    ensures ParseHexU8(in2Hex).Err? ==> r == Err(ParseHexU8(in2Hex).error)
    ensures ParseHexU8(in2Hex).Ok? && ParseHexU8(in3Hex).Err? ==> r == Err(ParseHexU8(in3Hex).error)
    ensures r.Ok? ==> r.value == CalculateOffsetFromCount(ParseHexU8(in2Hex).value, ParseHexU8(in3Hex).value)
  {
    var in2 :- ParseHexU8(in2Hex);
    var in3 :- ParseHexU8(in3Hex);
    Ok(CalculateOffsetFromCount(in2, in3))
  }

  /** The five logged pairs the formula was fitted to, as `main` checks them (the
      first also with a lower-case digit). */
  lemma OffsetVectors()
    ensures CalculateOutWithBitshiftOps("08", "C0") == Ok(0x47000)
    ensures CalculateOutWithBitshiftOps("08", "c0") == Ok(0x47000)
    ensures CalculateOutWithBitshiftOps("06", "02") == Ok(0x31000)
  {
    OffsetVector("08", "C0", 0x47000);
    OffsetVector("08", "c0", 0x47000);
    OffsetVector("06", "02", 0x31000);
  }

  lemma MoreOffsetVectors()
    ensures CalculateOutWithBitshiftOps("0B", "8B") == Ok(0x5d000)
    ensures CalculateOutWithBitshiftOps("02", "6E") == Ok(0x14000)
    ensures CalculateOutWithBitshiftOps("01", "DC") == Ok(0xf000)
  {
    OffsetVector("0B", "8B", 0x5d000);
    OffsetVector("02", "6E", 0x14000);
    OffsetVector("01", "DC", 0xf000);
  }

  /** One logged pair: two-digit inputs whose digit values give `r` by the formula. */
  lemma OffsetVector(in2Hex: string, in3Hex: string, r: nat)
    requires |in2Hex| == 2 && |in3Hex| == 2
    requires HexDigitValue(in2Hex[0]).Some? && HexDigitValue(in2Hex[1]).Some?
    requires HexDigitValue(in3Hex[0]).Some? && HexDigitValue(in3Hex[1]).Some?
    requires r == CalculateOffsetFromCount(16 * HexDigitValue(in2Hex[0]).value + HexDigitValue(in2Hex[1]).value,
                                           16 * HexDigitValue(in3Hex[0]).value + HexDigitValue(in3Hex[1]).value)
    ensures CalculateOutWithBitshiftOps(in2Hex, in3Hex) == Ok(r)
  {
    ParseTwoDigits(in2Hex);
    ParseTwoDigits(in3Hex);
  }
}
