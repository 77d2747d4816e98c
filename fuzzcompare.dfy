/** The fuzzy line comparison of the test helper (helpers/python/fuzzcompare.py):
    two lines match when they are equal, or when they split into the same
    non-numeric text around the same count of numbers and each pair of numbers
    is within 1% of each other. Numbers are the successive matches of the
    pattern `[0-9]+(\.[0-9]+)?`; a number's value is kept as an exact fraction
    `digits / 10^scale`. */
module FuzzCompare {
  import opened Common
  import opened Text

  // ------------------------------------------------------------ tokenising

  /** One match of the number pattern: the characters `start..end`. */
  datatype Match = Match(start: nat, end: nat)

  /** The end of the run of digits that starts at `i`. */
  function DigitsEnd(s: string, i: nat): (e: nat)
    requires i <= |s|
    ensures i <= e <= |s|
    ensures forall j :: i <= j < e ==> IsDigit(s[j])
    ensures e == |s| || !IsDigit(s[e])
    decreases |s| - i
  {
    if i < |s| && IsDigit(s[i]) then DigitsEnd(s, i + 1) else i
  }

  /** The text the number pattern accepts: digits, optionally followed by `.`
      and more digits. */
  predicate IsNumber(t: string)
  {
    (t != [] && AllDigits(t)) ||
    (exists k :: 0 < k < |t| - 1 && t[k] == '.' && AllDigits(t[..k]) && AllDigits(t[k + 1..]))
  }

  /** The end of the greedy match that starts at the digit `i`: its digits, and
      then `.` with the digits after it when a digit follows the `.`. */
  function MatchEnd(s: string, i: nat): (e: nat)
    requires i < |s| && IsDigit(s[i])
    ensures i < e <= |s|
    ensures e == |s| || !IsDigit(s[e])
    ensures IsNumber(s[i..e])
  {
    var d := DigitsEnd(s, i);
    if d + 1 < |s| && s[d] == '.' && IsDigit(s[d + 1]) then
      var e := DigitsEnd(s, d + 1);
      var t := s[i..e];
      assert t[d - i] == '.' && t[..d - i] == s[i..d] && t[d - i + 1..] == s[d + 1..e];
      e
    else
      assert AllDigits(s[i..d]);
      d
  }

  /** `finditer` from position `p`: skip to the next digit, take the match there
      and go on after it. */
  function MatchesFrom(s: string, p: nat): (ms: seq<Match>)
    requires p <= |s|
    ensures forall k :: 0 <= k < |ms| ==> p <= ms[k].start < ms[k].end <= |s|
    ensures forall k :: 0 <= k < |ms| - 1 ==> ms[k].end < ms[k + 1].start
    ensures forall k :: 0 <= k < |ms| ==> IsDigit(s[ms[k].start])
    ensures forall k :: 0 <= k < |ms| ==> ms[k].end == |s| || !IsDigit(s[ms[k].end])
    decreases |s| - p
  {
    if p == |s| then []
    else if IsDigit(s[p]) then
      var e := MatchEnd(s, p);
      var rest := MatchesFrom(s, e);
      [Match(p, e)] + rest
    else MatchesFrom(s, p + 1)
  }

  /** The matches lie inside `s`, each non-empty and each before the next. */
  predicate WellPlaced(s: string, ms: seq<Match>)
  {
    && (forall k :: 0 <= k < |ms| ==> ms[k].start < ms[k].end <= |s|)
    && (forall k :: 0 <= k < |ms| - 1 ==> ms[k].end < ms[k + 1].start)
  }

  /** `prog.finditer(line)` as a list. */
  function Tokens(s: string): (ms: seq<Match>)
    ensures WellPlaced(s, ms)
  {
    MatchesFrom(s, 0)
  }

  /** The text of a match. */
  function Group(s: string, m: Match): string
    requires m.start <= m.end <= |s|
  {
    s[m.start..m.end]
  }

  /** Every match in `ms` is the text of a number. */
  predicate AllNumbers(s: string, ms: seq<Match>)
    requires forall k :: 0 <= k < |ms| ==> ms[k].start <= ms[k].end <= |s|
  {
    forall k :: 0 <= k < |ms| ==> IsNumber(Group(s, ms[k]))
  }

  /** Each match is a number. */
  lemma {:induction false} MatchesAreNumbers(s: string, p: nat)
    requires p <= |s|
    ensures AllNumbers(s, MatchesFrom(s, p))
    decreases |s| - p
  {
    if p < |s| {
      if IsDigit(s[p]) {
        var e := MatchEnd(s, p);
        MatchesAreNumbers(s, e);
        var rest := MatchesFrom(s, e);
        var ms := [Match(p, e)] + rest;
        assert MatchesFrom(s, p) == ms;
        forall k | 0 <= k < |ms|
          ensures IsNumber(Group(s, ms[k]))
        {
          if k > 0 {
            assert ms[k] == rest[k - 1];
          }
        }
      } else {
        MatchesAreNumbers(s, p + 1);
      }
    }
  }

  /** The character before `m`, if any, is not a digit. */
  predicate LeftMaximal(s: string, m: Match)
    requires m.start <= |s|
  {
    m.start == 0 || !IsDigit(s[m.start - 1])
  }

  /** Every match of `ms` that starts after `p` has a non-digit before it. */
  predicate LeftMaximalAfter(s: string, ms: seq<Match>, p: nat)
    requires forall k :: 0 <= k < |ms| ==> ms[k].start <= |s|
  {
    forall k :: 0 <= k < |ms| && ms[k].start > p ==> LeftMaximal(s, ms[k])
  }

  /** A match never starts right after a digit: matches are maximal on the left
      as well. */
  lemma {:induction false} MatchesStartAfterNonDigit(s: string, p: nat)
    requires p <= |s|
    ensures LeftMaximalAfter(s, MatchesFrom(s, p), p)
    decreases |s| - p
  {
    if p < |s| {
      var ms := MatchesFrom(s, p);
      if IsDigit(s[p]) {
        var e := MatchEnd(s, p);
        var rest := MatchesFrom(s, e);
        MatchesStartAfterNonDigit(s, e);
        assert ms == [Match(p, e)] + rest;
        forall k | 0 < k < |ms|
          ensures LeftMaximal(s, ms[k])
        {
          var m := rest[k - 1];
          assert ms[k] == m;
          assert m.start != e;
        }
      } else {
        var rest := MatchesFrom(s, p + 1);
        MatchesStartAfterNonDigit(s, p + 1);
        assert ms == rest;
        forall k | 0 <= k < |ms| && ms[k].start > p
          ensures LeftMaximal(s, ms[k])
        {
          if ms[k].start == p + 1 {
            assert !IsDigit(s[p]);
          }
        }
      }
    }
  }

  /** The digit at `j` lies inside one of the matches. */
  predicate Covered(ms: seq<Match>, j: nat)
  {
    exists k :: 0 <= k < |ms| && ms[k].start <= j < ms[k].end
  }

  lemma CoveredCons(m: Match, ms: seq<Match>, j: nat)
    requires (m.start <= j < m.end) || Covered(ms, j)
    ensures Covered([m] + ms, j)
  {
    var all := [m] + ms;
    if m.start <= j < m.end {
      assert all[0] == m;
    } else {
      var k :| 0 <= k < |ms| && ms[k].start <= j < ms[k].end;
      assert all[k + 1] == ms[k];
    }
  }

  /** Every digit from `p` on lies inside a match: the text before, between and
      after the matches holds no digit. */
  lemma {:induction false} MatchesCoverDigits(s: string, p: nat)
    requires p <= |s|
    ensures forall j :: p <= j < |s| && IsDigit(s[j]) ==> Covered(MatchesFrom(s, p), j)
    decreases |s| - p
  {
    if p < |s| {
      if IsDigit(s[p]) {
        var e := MatchEnd(s, p);
        MatchesCoverDigits(s, e);
        var rest := MatchesFrom(s, e);
        assert MatchesFrom(s, p) == [Match(p, e)] + rest;
        forall j | p <= j < |s| && IsDigit(s[j])
          ensures Covered([Match(p, e)] + rest, j)
        {
          CoveredCons(Match(p, e), rest, j);
        }
      } else {
        MatchesCoverDigits(s, p + 1);
      }
    }
  }

  // --------------------------------------------------------------- numbers

  /** A number as an exact fraction `num / 10^scale`. */
  datatype Fraction = Fraction(num: nat, scale: nat)

  function Pow10(k: nat): (r: nat)
    ensures r >= 1
  {
    if k == 0 then 1 else 10 * Pow10(k - 1)
  }

  /** `float(num_str)` on the text of a match: the digits without the point,
      over ten to the number of digits after the point. Text the pattern does
      not accept gives `None`. */
  function ParseNumber(t: string): (r: Option<Fraction>)
    ensures r.Some? <==> IsNumber(t)
  {
    var d := DigitsEnd(t, 0);
    if 0 < d == |t| then
      assert t[..d] == t;
      Some(Fraction(DecimalValue(t), 0))
    else if 0 < d && d + 1 < |t| && t[d] == '.' && AllDigits(t[d + 1..]) then
      var digits := t[..d] + t[d + 1..];
      assert AllDigits(digits) by {
        assert forall i :: 0 <= i < d ==> digits[i] == t[i];
        assert forall i :: d <= i < |digits| ==> digits[i] == t[d + 1..][i - d];
      }
      assert t[..d] == t[0..d];
      Some(Fraction(DecimalValue(digits), |t| - d - 1))
    else
      NumberShape(t);
      None
  }

  /** A number ends its leading digits at its point, or at its end. */
  lemma NumberShape(t: string)
    ensures IsNumber(t) ==>
              var d := DigitsEnd(t, 0);
              (0 < d == |t|) || (0 < d && d + 1 < |t| && t[d] == '.' && AllDigits(t[d + 1..]))
  {
    if IsNumber(t) {
      var d := DigitsEnd(t, 0);
      if t != [] && AllDigits(t) {
        DigitsEndReaches(t, 0, |t|);
      } else {
        var k :| 0 < k < |t| - 1 && t[k] == '.' && AllDigits(t[..k]) && AllDigits(t[k + 1..]);
        assert forall j :: 0 <= j < k ==> t[j] == t[..k][j];
        DigitsEndReaches(t, 0, k);
        assert d == k;
      }
    }
  }

  /** The digit run from `i` reaches past every digit before `k`. */
  lemma {:induction false} DigitsEndReaches(t: string, i: nat, k: nat)
    requires i <= k <= |t| && forall j :: i <= j < k ==> IsDigit(t[j])
    ensures DigitsEnd(t, i) >= k
    decreases k - i
  {
    if i < k {
      DigitsEndReaches(t, i + 1, k);
    }
  }

  /** The fraction as a real number. */
  function RealOf(x: Fraction): real
  {
    x.num as real / Pow10(x.scale) as real
  }

  function Dist(a: int, b: int): nat
  {
    if a < b then b - a else a - b
  }

  function Max(a: int, b: int): int
  {
    if a < b then b else a
  }

  /** `math.isclose(f1, f2, rel_tol=0.01)`, computed exactly: both fractions are
      brought to the denominator `10^(scale1 + scale2)`. */
  predicate Close(x: Fraction, y: Fraction)
  {
    var a := x.num * Pow10(y.scale);
    var b := y.num * Pow10(x.scale);
    100 * Dist(a, b) <= Max(a, b)
  }

  /** `math.isclose` with a relative tolerance of 1% and no absolute tolerance,
      on the real values: the distance is at most 0.01 times the larger
      magnitude. */
  ghost predicate IsClose(u: real, v: real)
  {
    var d := if u < v then v - u else u - v;
    var m := if u < v then v else u;
    d <= 0.01 * m
  }

  /** The integer computation decides `isclose` on the exact values. */
  lemma CloseMeansIsClose(x: Fraction, y: Fraction)
    ensures Close(x, y) <==> IsClose(RealOf(x), RealOf(y))
  {
    var px, py := Pow10(x.scale), Pow10(y.scale);
    var den := px * py;
    ScaleFraction(x.num, px, py, den);
    ScaleFraction(y.num, py, px, den);
    DivideBoth(x.num * py, y.num * px, den as real);
  }

  /** `n / d` is `(n * f) / den` for `den == d * f`. */
  lemma ScaleFraction(n: nat, d: nat, f: nat, den: nat)
    requires d >= 1 && f >= 1 && den == d * f
    ensures den >= 1
    ensures n as real / d as real == (n * f) as real / den as real
  {
    assert (n * f) as real == n as real * f as real;
    assert den as real == d as real * f as real;
  }

  /** Dividing both sides by a positive denominator keeps the comparison. */
  lemma DivideBoth(a: nat, b: nat, den: real)
    requires den > 0.0
    ensures 100 * Dist(a, b) <= Max(a, b) <==> IsClose(a as real / den, b as real / den)
  {
    var u, v := a as real / den, b as real / den;
    assert u * den == a as real && v * den == b as real;
    var d := if u < v then v - u else u - v;
    var m := if u < v then v else u;
    assert (a < b) == (u < v) by {
      ScaleOrder(u, v, den);
    }
    assert d * den == Dist(a, b) as real;
    assert m * den == Max(a, b) as real;
    ScaleLe(d, 0.01 * m, den);
    assert 0.01 * m * den == 0.01 * (m * den);
  }

  lemma ScaleOrder(u: real, v: real, c: real)
    requires c > 0.0
    ensures u < v <==> u * c < v * c
  {
    if u < v {
      assert (v - u) * c > 0.0;
    }
    if v <= u {
      assert (u - v) * c >= 0.0;
    }
  }

  lemma ScaleLe(x: real, y: real, c: real)
    requires c > 0.0
    ensures x <= y <==> x * c <= y * c
  {
    ScaleOrder(y, x, c);
  }

  /** `compare_numbers`: both parse and are within 1% of each other; text that
      does not parse gives false. */
  predicate CompareNumbers(t1: string, t2: string)
  {
    var x, y := ParseNumber(t1), ParseNumber(t2);
    x.Some? && y.Some? && Close(x.value, y.value)
  }

  /** The comparison does not depend on the order of its arguments. */
  lemma CompareNumbersSymmetric(t1: string, t2: string)
    ensures CompareNumbers(t1, t2) == CompareNumbers(t2, t1)
  {
  }

  /** A number is close to itself. */
  lemma CompareNumbersReflexive(t: string)
    requires IsNumber(t)
    ensures CompareNumbers(t, t)
  {
  }

  // --------------------------------------------------------------- the match

  /** The text between consecutive numbers is the same in both lines. */
  predicate GapsMatch(a: string, b: string, ra: seq<Match>, rb: seq<Match>)
    requires WellPlaced(a, ra) && WellPlaced(b, rb) && |ra| == |rb|
  {
    forall i :: 0 <= i < |ra| - 1 ==> a[ra[i].end..ra[i + 1].start] == b[rb[i].end..rb[i + 1].start]
  }

  /** Each pair of numbers is close. */
  predicate NumbersMatch(a: string, b: string, ra: seq<Match>, rb: seq<Match>)
    requires WellPlaced(a, ra) && WellPlaced(b, rb) && |ra| == |rb|
  {
    forall i :: 0 <= i < |ra| ==> CompareNumbers(Group(a, ra[i]), Group(b, rb[i]))
  }

  /** What `fuzz_match` decides: the same positive count of numbers, the same
      text before the first, after the last and between consecutive numbers,
      and each pair of numbers close. */
  predicate FuzzMatches(a: string, b: string)
  {
    var ra, rb := Tokens(a), Tokens(b);
    var n := |ra|;
    && n != 0
    && n == |rb|
    && ra[0].start == rb[0].start
    && a[..ra[0].start] == b[..rb[0].start]
    && a[ra[n - 1].end..] == b[rb[n - 1].end..]
    && GapsMatch(a, b, ra, rb)
    && NumbersMatch(a, b, ra, rb)
  }

  /** `fuzz_match`: the early-return checks of the source. */
  method FuzzMatch(a: string, b: string) returns (r: bool)
    ensures r == FuzzMatches(a, b)
    ensures Tokens(a) == [] || |Tokens(a)| != |Tokens(b)| ==> !r
  {
    var ra, rb := Tokens(a), Tokens(b);
    var n := |ra|;
    if n == 0 || n != |rb| {
      return false;
    }
    if ra[0].start != rb[0].start || a[..ra[0].start] != b[..rb[0].start] {
      return false;
    }
    if a[ra[n - 1].end..] != b[rb[n - 1].end..] {
      return false;
    }
    r := CheckGaps(a, b, ra, rb);
    if r {
      r := CheckNumbers(a, b, ra, rb);
    }
  }

  /** The first loop of `fuzz_match`: compare the text between consecutive
      numbers, stopping at the first difference. */
  method CheckGaps(a: string, b: string, ra: seq<Match>, rb: seq<Match>) returns (r: bool)
    requires WellPlaced(a, ra) && WellPlaced(b, rb) && |ra| == |rb|
    ensures r == GapsMatch(a, b, ra, rb)
  {
    var i := 0;
    while i < |ra| - 1
      invariant 0 <= i <= |ra| || |ra| == 0
      invariant forall j :: 0 <= j < i && j < |ra| - 1 ==> a[ra[j].end..ra[j + 1].start] == b[rb[j].end..rb[j + 1].start]
    {
      if a[ra[i].end..ra[i + 1].start] != b[rb[i].end..rb[i + 1].start] {
        return false;
      }
      i := i + 1;
    }
    return true;
  }

  /** The second loop of `fuzz_match`: compare the numbers pairwise, stopping at
      the first pair that is not close. */
  method CheckNumbers(a: string, b: string, ra: seq<Match>, rb: seq<Match>) returns (r: bool)
    requires WellPlaced(a, ra) && WellPlaced(b, rb) && |ra| == |rb|
    ensures r == NumbersMatch(a, b, ra, rb)
  {
    var i := 0;
    while i < |ra|
      invariant 0 <= i <= |ra|
      invariant forall j :: 0 <= j < i ==> CompareNumbers(Group(a, ra[j]), Group(b, rb[j]))
    {
      if !CompareNumbers(Group(a, ra[i]), Group(b, rb[i])) {
        return false;
      }
      i := i + 1;
    }
    return true;
  }

  /** `fuzz_compare`: equal lines, or lines that match fuzzily. */
  method FuzzCompare(a: string, b: string) returns (r: bool)
    ensures r == (a == b || FuzzMatches(a, b))
  {
    if a == b {
      return true;
    }
    r := FuzzMatch(a, b);
  }

  lemma NumbersMatchSymmetric(a: string, b: string, ra: seq<Match>, rb: seq<Match>)
    requires WellPlaced(a, ra) && WellPlaced(b, rb) && |ra| == |rb|
    ensures NumbersMatch(a, b, ra, rb) == NumbersMatch(b, a, rb, ra)
  {
    forall i | 0 <= i < |ra|
      ensures CompareNumbers(Group(a, ra[i]), Group(b, rb[i])) == CompareNumbers(Group(b, rb[i]), Group(a, ra[i]))
    {
      CompareNumbersSymmetric(Group(a, ra[i]), Group(b, rb[i]));
    }
  }

  /** Swapping the lines does not change the fuzzy match. */
  lemma FuzzMatchSymmetric(a: string, b: string)
    ensures FuzzMatches(a, b) == FuzzMatches(b, a)
  {
    var ra, rb := Tokens(a), Tokens(b);
    if |ra| == |rb| {
      NumbersMatchSymmetric(a, b, ra, rb);
      assert GapsMatch(a, b, ra, rb) == GapsMatch(b, a, rb, ra);
    }
  }

  /** A line matches itself fuzzily exactly when it holds a number. */
  lemma FuzzMatchSelf(a: string)
    ensures FuzzMatches(a, a) <==> Tokens(a) != []
  {
    var ra := Tokens(a);
    MatchesAreNumbers(a, 0);
    forall i | 0 <= i < |ra|
      ensures CompareNumbers(Group(a, ra[i]), Group(a, ra[i]))
    {
      CompareNumbersReflexive(Group(a, ra[i]));
    }
  }

  // ------------------------------------------------------------ test table

  /** Characters without digits are skipped. */
  lemma {:induction false} SkipNonDigits(s: string, p: nat, q: nat)
    requires p <= q <= |s| && forall j :: p <= j < q ==> !IsDigit(s[j])
    ensures MatchesFrom(s, p) == MatchesFrom(s, q)
    decreases q - p
  {
    if p < q {
      SkipNonDigits(s, p + 1, q);
    }
  }

  /** The run of digits from `i` ends at the first non-digit `e`. */
  lemma DigitsEndAt(s: string, i: nat, e: nat)
    requires i <= e <= |s| && (forall j :: i <= j < e ==> IsDigit(s[j])) && (e == |s| || !IsDigit(s[e]))
    ensures DigitsEnd(s, i) == e
  {
    DigitsEndReaches(s, i, e);
  }

  /** After non-digits up to `q`, the next match is the digits `q..d`, followed
      by `.` and the digits `d + 1..e` when `d < e`. */
  lemma NextToken(s: string, p: nat, q: nat, d: nat, e: nat)
    requires p <= q < d <= e <= |s|
    requires forall j :: p <= j < q ==> !IsDigit(s[j])
    requires forall j :: q <= j < d ==> IsDigit(s[j])
    requires d == |s| || !IsDigit(s[d])
    requires d == e ==> !(d + 1 < |s| && s[d] == '.' && IsDigit(s[d + 1]))
    requires d < e ==> d + 1 < e && s[d] == '.' && (forall j :: d < j < e ==> IsDigit(s[j])) &&
                       (e == |s| || !IsDigit(s[e]))
    ensures MatchesFrom(s, p) == [Match(q, e)] + MatchesFrom(s, e)
  {
    SkipNonDigits(s, p, q);
    DigitsEndAt(s, q, d);
    if d < e {
      DigitsEndAt(s, d + 1, e);
    }
  }

  /** The decimal value grows digit by digit. */
  lemma DecimalSnoc(t: string, c: char)
    requires AllDigits(t) && IsDigit(c)
    ensures AllDigits(t + [c]) && DecimalValue(t + [c]) == 10 * DecimalValue(t) + DigitValue(c)
  {
    assert (t + [c])[..|t|] == t;
  }

  /** A number with a point is its digits without the point, scaled down. */
  lemma ParsePointed(t: string, d: nat)
    requires 0 < d < |t| - 1 && t[d] == '.' && AllDigits(t[..d]) && AllDigits(t[d + 1..])
    ensures AllDigits(t[..d] + t[d + 1..])
    ensures ParseNumber(t) == Some(Fraction(DecimalValue(t[..d] + t[d + 1..]), |t| - d - 1))
  {
    assert forall j :: 0 <= j < d ==> t[j] == t[..d][j];
    DigitsEndAt(t, 0, d);
    var digits := t[..d] + t[d + 1..];
    assert forall i :: 0 <= i < d ==> digits[i] == t[..d][i];
    assert forall i :: d <= i < |digits| ==> digits[i] == t[d + 1..][i - d];
  }

  /** `"0"` denotes 0. */
  lemma Value0()
    ensures AllDigits("0") && DecimalValue("0") == 0
  {
    DecimalSnoc("", '0');
    assert "" + ['0'] == "0";
  }

  /** `"00"` denotes 0. */
  lemma Value00()
    ensures AllDigits("00") && DecimalValue("00") == 0
  {
    DecimalSnoc("", '0');
    assert "" + ['0'] == "0";
    DecimalSnoc("0", '0');
    assert "0" + ['0'] == "00";
  }

  /** `"1234"` denotes 1234. */
  lemma Value1234()
    ensures AllDigits("1234") && DecimalValue("1234") == 1234
  {
    DecimalSnoc("", '1');
    assert "" + ['1'] == "1";
    DecimalSnoc("1", '2');
    assert "1" + ['2'] == "12";
    DecimalSnoc("12", '3');
    assert "12" + ['3'] == "123";
    DecimalSnoc("123", '4');
    assert "123" + ['4'] == "1234";
  }

  /** `"123399999"` denotes 123399999. */
  lemma Value123399999()
    ensures AllDigits("123399999") && DecimalValue("123399999") == 123399999
  {
    DecimalSnoc("", '1');
    assert "" + ['1'] == "1";
    DecimalSnoc("1", '2');
    assert "1" + ['2'] == "12";
    DecimalSnoc("12", '3');
    assert "12" + ['3'] == "123";
    DecimalSnoc("123", '3');
    assert "123" + ['3'] == "1233";
    DecimalSnoc("1233", '9');
    assert "1233" + ['9'] == "12339";
    DecimalSnoc("12339", '9');
    assert "12339" + ['9'] == "123399";
    DecimalSnoc("123399", '9');
    assert "123399" + ['9'] == "1233999";
    DecimalSnoc("1233999", '9');
    assert "1233999" + ['9'] == "12339999";
    DecimalSnoc("12339999", '9');
    assert "12339999" + ['9'] == "123399999";
  }

  /** `"1274"` denotes 1274. */
  lemma Value1274()
    ensures AllDigits("1274") && DecimalValue("1274") == 1274
  {
    DecimalSnoc("", '1');
    assert "" + ['1'] == "1";
    DecimalSnoc("1", '2');
    assert "1" + ['2'] == "12";
    DecimalSnoc("12", '7');
    assert "12" + ['7'] == "127";
    DecimalSnoc("127", '4');
    assert "127" + ['4'] == "1274";
  }

  /** `"11"` denotes 11. */
  lemma Value11()
    ensures AllDigits("11") && DecimalValue("11") == 11
  {
    DecimalSnoc("", '1');
    assert "" + ['1'] == "1";
    DecimalSnoc("1", '1');
    assert "1" + ['1'] == "11";
  }

  /** `"10"` denotes 10. */
  lemma Value10()
    ensures AllDigits("10") && DecimalValue("10") == 10
  {
    DecimalSnoc("", '1');
    assert "" + ['1'] == "1";
    DecimalSnoc("1", '0');
    assert "1" + ['0'] == "10";
  }

  lemma Pow10Values()
    ensures Pow10(3) == 1000 && Pow10(8) == 100000000
  {
    assert Pow10(1) == 10;
    assert Pow10(2) == 100;
    assert Pow10(3) == 1000;
    assert Pow10(4) == 10000;
    assert Pow10(5) == 100000;
    assert Pow10(6) == 1000000;
    assert Pow10(7) == 10000000;
  }

  /** `"1.234"` and `"1.23399999"` differ by less than 1%. */
  lemma CloseDecimals()
    ensures CompareNumbers("1.234", "1.23399999")
  {
    Parsed1234("1.234");
    Parsed123399999("1.23399999");
    Pow10Values();
    assert Close(Fraction(1234, 3), Fraction(123399999, 8));
  }

  /** `"1.234"` and `"1.274"` differ by more than 1%. */
  lemma FarDecimals()
    ensures !CompareNumbers("1.234", "1.274")
  {
    Parsed1234("1.234");
    Parsed1274("1.274");
    Pow10Values();
    assert !Close(Fraction(1234, 3), Fraction(1274, 3));
  }

  /** `"0"` and `"0.0"` are both zero. */
  lemma ZeroWithPoint()
    ensures CompareNumbers("0", "0.0")
  {
    var y := "0.0";
    ParsePointed(y, 1);
    assert y[..1] + y[2..] == "00";
    DigitsEndAt("0", 0, 1);
    assert ParseNumber("0") == Some(Fraction(DecimalValue("0"), 0));
    Value0();
    Value00();
    assert Close(Fraction(0, 0), Fraction(0, 1));
  }

  /** `11` and `10` differ by more than 1%. */
  lemma FarIntegers()
    ensures !CompareNumbers("11", "10")
  {
    DigitsEndAt("11", 0, 2);
    DigitsEndAt("10", 0, 2);
    Value11();
    Value10();
    assert !Close(Fraction(11, 0), Fraction(10, 0));
  }

  lemma TokensOfClockA(a: string)
    requires a == "a11:22b"
    ensures Tokens(a) == [Match(1, 3), Match(4, 6)]
  {
    NextToken(a, 0, 1, 3, 3);
    NextToken(a, 3, 4, 6, 6);
    SkipNonDigits(a, 6, 7);
  }

  lemma TokensOfClockB(b: string)
    requires b == "a10:22b"
    ensures Tokens(b) == [Match(1, 3), Match(4, 6)]
  {
    NextToken(b, 0, 1, 3, 3);
    NextToken(b, 3, 4, 6, 6);
    SkipNonDigits(b, 6, 7);
  }

  /** The numbers of `"a11:22b"` and `"a10:22b"`: the texts around them agree,
      but `11` and `10` differ by more than 1%, so the lines do not match. */
  lemma ClockLines(a: string, b: string)
    requires a == "a11:22b" && b == "a10:22b"
    ensures !FuzzMatches(a, b)
  {
    TokensOfClockA(a);
    TokensOfClockB(b);
    assert Group(a, Match(1, 3)) == "11" && Group(b, Match(1, 3)) == "10";
    FarIntegers();
  }

  lemma TokensOfTagA(a: string)
    requires a == "<a>1.234</a>"
    ensures Tokens(a) == [Match(3, 8)]
  {
    NextToken(a, 0, 3, 4, 8);
    SkipNonDigits(a, 8, |a|);
  }

  lemma TokensOfTagB(b: string)
    requires b == "<a>1.23399999</a>"
    ensures Tokens(b) == [Match(3, 13)]
  {
    NextToken(b, 0, 3, 4, 13);
    SkipNonDigits(b, 13, |b|);
  }

  /** A whole line of the test table: the same tags around two close numbers. */
  lemma CloseTaggedLines(a: string, b: string)
    requires a == "<a>1.234</a>" && b == "<a>1.23399999</a>"
    ensures FuzzMatches(a, b)
  {
    TokensOfTagA(a);
    TokensOfTagB(b);
    TagEnds(a, b);
    TagNumbers(a, b);
  }

  /** The two lines have the same text before and after their numbers. */
  lemma TagEnds(a: string, b: string)
    requires a == "<a>1.234</a>" && b == "<a>1.23399999</a>"
    ensures a[..3] == b[..3] && a[8..] == b[13..]
  {
    assert a[..3] == "<a>" == b[..3];
    assert a[8..] == "</a>" == b[13..];
  }

  /** The numbers of the two lines are close. */
  lemma TagNumbers(a: string, b: string)
    requires a == "<a>1.234</a>" && b == "<a>1.23399999</a>"
    ensures CompareNumbers(Group(a, Match(3, 8)), Group(b, Match(3, 13)))
  {
    assert Group(a, Match(3, 8)) == "1.234";
    assert Group(b, Match(3, 13)) == "1.23399999";
    CloseDecimals();
  }

  /** `"1.23399999"` and `"1.274"` differ by more than 1%. */
  lemma FarLongDecimals()
    ensures !CompareNumbers("1.23399999", "1.274")
  {
    Parsed123399999("1.23399999");
    Parsed1274("1.274");
    Pow10Values();
    assert !Close(Fraction(123399999, 8), Fraction(1274, 3));
  }

  lemma Parsed1234(x: string)
    requires x == "1.234"
    ensures ParseNumber(x) == Some(Fraction(1234, 3))
  {
    ParsePointed(x, 1);
    assert x[..1] + x[2..] == "1234";
    Value1234();
  }

  lemma Parsed123399999(x: string)
    requires x == "1.23399999"
    ensures ParseNumber(x) == Some(Fraction(123399999, 8))
  {
    ParsePointed(x, 1);
    assert x[..1] + x[2..] == "123399999";
    Value123399999();
  }

  lemma Parsed1274(x: string)
    requires x == "1.274"
    ensures ParseNumber(x) == Some(Fraction(1274, 3))
  {
    ParsePointed(x, 1);
    assert x[..1] + x[2..] == "1274";
    Value1274();
  }

  lemma TokensOfTagC(c: string)
    requires c == "<a>1.274</a>"
    ensures Tokens(c) == [Match(3, 8)]
  {
    NextToken(c, 0, 3, 4, 8);
    SkipNonDigits(c, 8, |c|);
  }

  lemma TokensOfTagD(d: string)
    requires d == "<b>1.274</a>"
    ensures Tokens(d) == [Match(3, 8)]
  {
    NextToken(d, 0, 3, 4, 8);
    SkipNonDigits(d, 8, |d|);
  }

  lemma TokensOfZeroA(a: string)
    requires a == "<a>0</a>"
    ensures Tokens(a) == [Match(3, 4)]
  {
    NextToken(a, 0, 3, 4, 4);
    SkipNonDigits(a, 4, |a|);
  }

  lemma TokensOfZeroB(b: string)
    requires b == "<a>0.0</a>"
    ensures Tokens(b) == [Match(3, 6)]
  {
    NextToken(b, 0, 3, 4, 6);
    SkipNonDigits(b, 6, |b|);
  }

  /** Line 67 of the test table: the same tags around numbers 3% apart. */
  lemma FarTaggedLines(a: string, c: string)
    requires a == "<a>1.234</a>" && c == "<a>1.274</a>"
    ensures !FuzzMatches(a, c)
  {
    TokensOfTagA(a);
    TokensOfTagC(c);
    assert Group(a, Match(3, 8)) == "1.234" && Group(c, Match(3, 8)) == "1.274";
    FarDecimals();
  }

  /** Line 68 of the test table: the longer decimal is just as far from `1.274`. */
  lemma FarLongTaggedLines(b: string, c: string)
    requires b == "<a>1.23399999</a>" && c == "<a>1.274</a>"
    ensures !FuzzMatches(b, c)
  {
    TokensOfTagB(b);
    TokensOfTagC(c);
    assert Group(b, Match(3, 13)) == "1.23399999" && Group(c, Match(3, 8)) == "1.274";
    FarLongDecimals();
  }

  /** Line 69 of the test table: equal numbers, but the text before them differs. */
  lemma OtherTagLines(c: string, d: string)
    requires c == "<a>1.274</a>" && d == "<b>1.274</a>"
    ensures !FuzzMatches(c, d)
  {
    TokensOfTagC(c);
    TokensOfTagD(d);
    assert c[..3][1] == 'a' && d[..3][1] == 'b';
  }

  /** Line 70 of the test table: `0` and `0.0` between the same tags. */
  lemma ZeroTaggedLines(a: string, b: string)
    requires a == "<a>0</a>" && b == "<a>0.0</a>"
    ensures FuzzMatches(a, b)
  {
    TokensOfZeroA(a);
    TokensOfZeroB(b);
    ZeroEnds(a, b);
    ZeroNumbers(a, b);
  }

  /** The two lines have the same text before and after their numbers. */
  lemma ZeroEnds(a: string, b: string)
    requires a == "<a>0</a>" && b == "<a>0.0</a>"
    ensures a[..3] == b[..3] && a[4..] == b[6..]
  {
    assert a[..3] == "<a>" == b[..3];
    assert a[4..] == "</a>" == b[6..];
  }

  /** The numbers of the two lines are both zero. */
  lemma ZeroNumbers(a: string, b: string)
    requires a == "<a>0</a>" && b == "<a>0.0</a>"
    ensures CompareNumbers(Group(a, Match(3, 4)), Group(b, Match(3, 6)))
  {
    assert Group(a, Match(3, 4)) == "0";
    assert Group(b, Match(3, 6)) == "0.0";
    ZeroWithPoint();
  }
}
