/** The replay transport (src/intf_file.rs): a script of `> ` command lines and
    `< ` response lines, each an optionally `:`-separated hex string, with `#: `
    comments attached to the next entry. The file has already been split into
    lines; the model parses them into entries and replays the entries with a
    cursor. */
module IntfFile {
  import opened Common
  import opened Text

  /** One script entry: a command (`out`) or a response, its bytes, its 1-based
      line number and the comment attached to it. */
  datatype InOut = InOut(out: bool, line: seq<byte>, lineNum: nat, comment: string)

  // ----------------------------------------------------------------- parsing

  /** What a script line is: an entry (command or response), a `#: ` comment,
      or nothing (empty, other `#` lines, unknown lines). */
  datatype LineKind = Entry(out: bool) | Comment(text: string) | Skip

  function KindOf(line: string): (k: LineKind)
    ensures k.Entry? ==> |line| >= 2
  {
    if line == "" || StartsWith(line, "#") then
      if StartsWith(line, "#: ") then Comment(Trim(line[2..])) else Skip
    else if StartsWith(line, "> ") then Entry(true)
    else if StartsWith(line, "< ") then Entry(false)
    else Skip
  }

  /** `s.replace(":", "")` */
  function RemoveColons(s: string): (r: string)
    ensures ':' !in r
    ensures |r| <= |s|
  {
    if s == [] then [] else (if s[0] == ':' then [] else [s[0]]) + RemoveColons(s[1..])
  }

  /** Removing colons keeps every other character: a colon-free string is left
      alone. */
  lemma {:induction false} RemoveColonsFree(s: string)
    requires ':' !in s
    ensures RemoveColons(s) == s
  {
    if s != [] {
      assert ':' !in s[1..] by {
        assert forall c :: c in s[1..] ==> c in s;
      }
      RemoveColonsFree(s[1..]);
    }
  }

  /** The bytes of an entry line: the hex decoding of the text after the two
      marker characters, with every ':' removed. */
  function EntryBytes(line: string): Option<seq<byte>>
    requires |line| >= 2
  {
    HexDecode(RemoveColons(line[2..]))
  }

  /** The comment pending before line `i`: the trimmed text of the last `#: `
      line, unless an entry came after it. */
  function Pending(script: seq<string>, i: nat): string
    requires i <= |script|
  {
    if i == 0 then ""
    else match KindOf(script[i - 1])
      case Comment(text) => text
      case Entry(_) => ""
      case Skip => Pending(script, i - 1)
  }

  /** The comment that reaches an entry: after an entry no comment is pending
      until the next `#: ` line. */
  lemma {:induction false} PendingCleared(script: seq<string>, i: nat, k: nat)
    requires i < k <= |script| && KindOf(script[i]).Entry?
    requires forall j :: i < j < k ==> !KindOf(script[j]).Entry? && !KindOf(script[j]).Comment?
    ensures Pending(script, k) == ""
    decreases k - i
  {
    if k - 1 > i {
      PendingCleared(script, i, k - 1);
    }
  }

  /** A `#: ` line stays pending, overwriting any earlier one, until the next entry
      or the next `#: ` line. */
  lemma {:induction false} PendingSet(script: seq<string>, i: nat, k: nat)
    requires i < k <= |script| && KindOf(script[i]).Comment?
    requires forall j :: i < j < k ==> !KindOf(script[j]).Entry? && !KindOf(script[j]).Comment?
    ensures Pending(script, k) == KindOf(script[i]).text
    decreases k - i
  {
    if k - 1 > i {
      PendingSet(script, i, k - 1);
    }
  }

  /** The entries of the first `n` lines, or the failure of the first entry line
      whose hex does not decode. */
  function Entries(script: seq<string>, n: nat): Result<seq<InOut>>
    requires n <= |script|
  {
    if n == 0 then Ok([])
    else
      var prev :- Entries(script, n - 1);
      var line := script[n - 1];
      match KindOf(line)
      case Entry(out) =>
        var bytes := EntryBytes(line);
        if bytes.None? then Err(BadHex(n))
        else Ok(prev + [InOut(out, bytes.value, n, Pending(script, n - 1))])
      case _ => Ok(prev)
  }

  /** One step of the parse: line `n` adds its entry, or nothing. */
  lemma EntriesStep(script: seq<string>, n: nat)
    requires 0 < n <= |script| && Entries(script, n).Ok?
    ensures Entries(script, n - 1).Ok?
    ensures var line := script[n - 1];
            Entries(script, n).value ==
              Entries(script, n - 1).value +
              (if KindOf(line).Entry? then [InOut(KindOf(line).out, EntryBytes(line).value, n, Pending(script, n - 1))]
               else [])
  {
  }

  /** The entry stands for its line: its kind, its decoded bytes and its pending
      comment are that line's. */
  predicate OfLine(script: seq<string>, e: InOut)
  {
    && 1 <= e.lineNum <= |script|
    && KindOf(script[e.lineNum - 1]) == Entry(e.out)
    && EntryBytes(script[e.lineNum - 1]) == Some(e.line)
    && e.comment == Pending(script, e.lineNum - 1)
  }

  /** Every entry comes from an entry line among the first `n`. */
  lemma {:induction false} EntriesFromLines(script: seq<string>, n: nat)
    requires n <= |script| && Entries(script, n).Ok?
    ensures var es := Entries(script, n).value;
            forall k :: 0 <= k < |es| ==> OfLine(script, es[k]) && es[k].lineNum <= n
  {
    if n > 0 {
      EntriesStep(script, n);
      EntriesFromLines(script, n - 1);
      var prev, es := Entries(script, n - 1).value, Entries(script, n).value;
      var line := script[n - 1];
      if KindOf(line).Entry? {
        var e := InOut(KindOf(line).out, EntryBytes(line).value, n, Pending(script, n - 1));
        assert es == prev + [e];
        assert OfLine(script, e);
        forall k | 0 <= k < |es|
          ensures OfLine(script, es[k]) && es[k].lineNum <= n
        {
          if k < |prev| {
            assert es[k] == prev[k];
          }
        }
      } else {
        assert es == prev;
      }
    }
  }

  /** The entries keep the order of their lines. */
  lemma {:induction false} EntriesOrdered(script: seq<string>, n: nat)
    requires n <= |script| && Entries(script, n).Ok?
    ensures var es := Entries(script, n).value;
            forall k, l :: 0 <= k < l < |es| ==> es[k].lineNum < es[l].lineNum
  {
    if n > 0 {
      EntriesStep(script, n);
      EntriesOrdered(script, n - 1);
      EntriesFromLines(script, n - 1);
      var prev, es := Entries(script, n - 1).value, Entries(script, n).value;
      forall k, l | 0 <= k < l < |es|
        ensures es[k].lineNum < es[l].lineNum
      {
        assert es[k] == prev[k];
        if l < |prev| {
          assert es[l] == prev[l];
        }
      }
    }
  }

  /** There is one entry per entry line: none is dropped. */
  lemma {:induction false} EntriesCounted(script: seq<string>, n: nat)
    requires n <= |script| && Entries(script, n).Ok?
    ensures |Entries(script, n).value| == EntryCount(script, n)
  {
    if n > 0 {
      EntriesCounted(script, n - 1);
    }
  }

  /** A parse that failed stays failed with the same error. */
  lemma {:induction false} EntriesErr(script: seq<string>, n: nat, m: nat)
    requires n <= m <= |script| && Entries(script, n).Err?
    ensures Entries(script, m) == Entries(script, n)
    decreases m - n
  {
    if n < m {
      EntriesErr(script, n, m - 1);
    }
  }

  /** The number of entry lines among the first `n`. */
  function EntryCount(script: seq<string>, n: nat): nat
    requires n <= |script|
  {
    if n == 0 then 0 else EntryCount(script, n - 1) + (if KindOf(script[n - 1]).Entry? then 1 else 0)
  }

  /** Every line that is not an entry line, and every line before the first bad
      entry, leaves the parse going: a script without bad hex parses. */
  lemma {:induction false} EntriesOk(script: seq<string>, n: nat)
    requires n <= |script|
    requires forall j :: 0 <= j < n && KindOf(script[j]).Entry? ==> EntryBytes(script[j]).Some?
    ensures Entries(script, n).Ok?
  {
    if n > 0 {
      EntriesOk(script, n - 1);
    }
  }

  /** `IntfFile::new`: one pass over the lines, keeping the pending comment. */
  method ParseScript(script: seq<string>) returns (r: Result<seq<InOut>>)
    ensures r == Entries(script, |script|)
  {
    var result: seq<InOut> := [];
    var nextComment: string := "";
    var lineNum: nat := 0;
    while lineNum < |script|
      invariant lineNum <= |script|
      invariant Entries(script, lineNum) == Ok(result)
      invariant nextComment == Pending(script, lineNum)
    {
      var line := script[lineNum];
      lineNum := lineNum + 1;
      var kind := KindOf(line);
      if kind.Comment? {
        nextComment := kind.text;
      } else if kind.Entry? {
        var bytes := EntryBytes(line);
        if bytes.None? {
          EntriesErr(script, lineNum, |script|);
          return Err(BadHex(lineNum));
        }
        result := result + [InOut(kind.out, bytes.value, lineNum, nextComment)];
        nextComment := "";
      }
    }
    r := Ok(result);
  }

  // -------------------------------------------------------- time in a comment

  /** `str::parse::<u64>`: an optional `+` and at least one decimal digit, with a
      value below 2^64. */
  function ParseU64(s: string): (r: Option<u64>)
    ensures r.Some? ==> exists t :: (t == s || (s != [] && s[0] == '+' && t == s[1..])) &&
                                    t != [] && AllDigits(t) && r.value == DecimalValue(t)
  {
    var t := if s != [] && s[0] == '+' then s[1..] else s;
    if t == [] || !AllDigits(t) then None
    else if DecimalValue(t) >= U64_LIMIT then None
    else Some(DecimalValue(t))
  }

  /** `get_time_micros` on a comment: the decimal between the first `us=` and the
      next `)`, which must also fit an `i64`. */
  function TimeInComment(comment: string): (r: Result<u64>)
    ensures r.Ok? ==> r.value < 0x8000_0000_0000_0000
    ensures Find(comment, "us=").None? ==> r == Err(NoTimeInComment)
    ensures r.Ok? ==> exists i: nat :: i + 3 <= |comment| && OccursAt(comment, "us=", i) && ')' in comment[i + 3..]
  {
    var i0 := Find(comment, "us=");
    if i0.None? then Err(NoTimeInComment)
    else
      var line2 := comment[i0.value + 3..];
      var i1 := Find(line2, ")");
      if i1.None? then Err(NoTimeInComment)
      else
        var t := ParseU64(line2[..i1.value]);
        if t.None? || t.value >= 0x8000_0000_0000_0000 then Err(BadTimeValue) else Ok(t.value)
  }

  /** A comment that holds `us=<t>)` at its first `us=` gives back `t`. */
  lemma TimeInCommentWritten(pre: string, t: nat, post: string)
    requires t < 0x8000_0000_0000_0000
    requires Find(pre + "us=" + DecimalString(t) + ")" + post, "us=") == Some(|pre|)
    ensures TimeInComment(pre + "us=" + DecimalString(t) + ")" + post) == Ok(t)
  {
    var digits := DecimalString(t);
    DigitsOf(t);
    ParseDecimal(t, digits);
    TimeOfDigits(pre, digits, post, t);
  }

  lemma TimeOfDigits(pre: string, digits: string, post: string, t: nat)
    requires AllDigits(digits) && ParseU64(digits) == Some(t) && t < 0x8000_0000_0000_0000
    requires Find(pre + "us=" + digits + ")" + post, "us=") == Some(|pre|)
    ensures TimeInComment(pre + "us=" + digits + ")" + post) == Ok(t)
  {
    var c := pre + "us=" + digits + ")" + post;
    var line2 := digits + ")" + post;
    AfterMarker(pre, line2);
    assert c == pre + "us=" + line2;
    NoCloseInDigits(digits, post);
    TimeAt(c, |pre|, line2, digits, t);
  }

  lemma AfterMarker(pre: string, rest: string)
    ensures (pre + "us=" + rest)[|pre| + 3..] == rest
  {
  }

  lemma DigitsOf(t: nat)
    ensures 1 <= |DecimalString(t)| && AllDigits(DecimalString(t))
  {
    DecimalRoundTrip(t);
  }

  /** The steps of `get_time_micros` when each succeeds. */
  lemma TimeAt(c: string, i0: nat, line2: string, digits: string, t: nat)
    requires Find(c, "us=") == Some(i0) && line2 == c[i0 + 3..]
    requires Find(line2, ")") == Some(|digits|) && line2[..|digits|] == digits
    requires ParseU64(digits) == Some(t) && t < 0x8000_0000_0000_0000
    ensures TimeInComment(c) == Ok(t)
  {
  }

  /** The decimal rendering of a number below 2^64 parses back to it. */
  lemma ParseDecimal(t: nat, digits: string)
    requires t < U64_LIMIT && digits == DecimalString(t)
    ensures ParseU64(digits) == Some(t)
  {
    DecimalRoundTrip(t);
    assert digits[0] != '+' by {
      assert IsDigit(digits[0]);
    }
  }

  /** In a digit string followed by `)`, the first `)` is right after the digits. */
  lemma NoCloseInDigits(digits: string, post: string)
    requires AllDigits(digits)
    ensures var line2 := digits + ")" + post;
            Find(line2, ")") == Some(|digits|) && line2[..|digits|] == digits
  {
    var line2 := digits + ")" + post;
    assert OccursAt(line2, ")", |digits|);
    forall j: nat | j < |digits|
      ensures !OccursAt(line2, ")", j)
    {
      assert line2[j] == digits[j];
      assert IsDigit(digits[j]);
    }
  }

  // ------------------------------------------------------------------ replay

  /** The bytes of consecutive responses, joined. */
  function Joined(es: seq<InOut>): seq<byte>
  {
    if es == [] then [] else Joined(es[..|es| - 1]) + es[|es| - 1].line
  }

  /** One more response in the run: it is joined on, and the run after it is one
      shorter. */
  lemma JoinStep(ls: seq<InOut>, first: nat, next: nat)
    requires first < next < |ls| && !ls[next].out
    ensures Joined(ls[first..next + 1]) == Joined(ls[first..next]) + ls[next].line
    ensures ResponseRun(ls, next) == 1 + ResponseRun(ls, next + 1)
  {
    assert ls[first..next + 1][..next - first] == ls[first..next];
  }

  /** The number of consecutive responses from entry `k` on. */
  function ResponseRun(lines: seq<InOut>, k: nat): (n: nat)
    requires k <= |lines|
    ensures k + n <= |lines|
    ensures forall j :: k <= j < k + n ==> !lines[j].out
    ensures k + n == |lines| || lines[k + n].out
    decreases |lines| - k
  {
    if k == |lines| || lines[k].out then 0 else 1 + ResponseRun(lines, k + 1)
  }

  class IntfFile {
    const lines: seq<InOut>
    var nextLine: nat

    constructor (lines: seq<InOut>)
      ensures this.lines == lines && nextLine == 0
    {
      this.lines := lines;
      nextLine := 0;
    }

    /** `sim_send`: take the next entry, which must be a command with exactly the
        bytes sent. */
    method SimSend(toDevice: seq<byte>) returns (r: Result<InOut>)
      modifies this
      ensures old(nextLine) >= |lines| ==> r == Err(ScriptExhausted) && nextLine == old(nextLine)
      ensures old(nextLine) < |lines| ==> nextLine == old(nextLine) + 1
      ensures r.Ok? <==> old(nextLine) < |lines| && lines[old(nextLine)].out && lines[old(nextLine)].line == toDevice
      ensures r.Ok? ==> r.value == lines[old(nextLine)]
    {
      if nextLine >= |lines| {
        return Err(ScriptExhausted);
      }
      var outLine := lines[nextLine];
      nextLine := nextLine + 1;
      if !outLine.out {
        return Err(NotACommand(outLine.lineNum));
      }
      if outLine.line != toDevice {
        return Err(CommandMismatch(outLine.lineNum));
      }
      r := Ok(outLine);
    }

    /** `send_and_receive`: the matched command, then the response after it joined
        with every response that follows directly. */
    method SendAndReceive(toDevice: seq<byte>) returns (r: Result<seq<byte>>)
      modifies this
      ensures var c := old(nextLine);
              r.Ok? <==> c + 1 < |lines| && lines[c].out && lines[c].line == toDevice && !lines[c + 1].out
      ensures r.Ok? ==> var c := old(nextLine);
                        nextLine == c + 2 + ResponseRun(lines, c + 2) &&
                        r.value == Joined(lines[c + 1..nextLine])
    {
      var sent := SimSend(toDevice);
      if sent.Err? {
        return Err(sent.error);
      }
      if nextLine >= |lines| {
        return Err(ScriptExhausted);
      }
      var inLine := lines[nextLine];
      ghost var first := nextLine;
      nextLine := nextLine + 1;
      if inLine.out {
        return Err(NotAResponse(inLine.lineNum));
      }
      assert lines[first..nextLine] == [inLine];
      assert Joined([inLine]) == Joined([]) + inLine.line;
      var line := JoinRun(inLine.line);
      r := Ok(line);
    }

    /** The loop of `send_and_receive`: append every response that follows
        directly to the one just taken. */
    method JoinRun(start: seq<byte>) returns (line: seq<byte>)
      modifies this
      requires 0 < nextLine <= |lines| && start == Joined(lines[nextLine - 1..nextLine])
      ensures nextLine == old(nextLine) + ResponseRun(lines, old(nextLine))
      ensures line == Joined(lines[old(nextLine) - 1..nextLine])
    {
      var ls, next := lines, nextLine;
      ghost var first := next - 1;
      line := start;
      while next < |ls| && !ls[next].out
        invariant first < next <= |ls|
        invariant line == Joined(ls[first..next])
        invariant ResponseRun(ls, first + 1) == ResponseRun(ls, next) + (next - first - 1)
        decreases |ls| - next
      {
        JoinStep(ls, first, next);
        line := line + ls[next].line;
        next := next + 1;
      }
      nextLine := next;
    }

    /** `cmd_oneway_devicereset`: the matched command and nothing else. */
    method CmdOnewayDeviceReset(toDevice: seq<byte>) returns (r: Result<()>)
      modifies this
      ensures r.Ok? <==> old(nextLine) < |lines| && lines[old(nextLine)].out && lines[old(nextLine)].line == toDevice
      ensures r.Ok? ==> nextLine == old(nextLine) + 1
    {
      var sent := SimSend(toDevice);
      if sent.Err? {
        return Err(sent.error);
      }
      r := Ok(());
    }

    /** `get_time_micros`: the time in the comment of the next entry; the cursor
        does not move. */
    function GetTimeMicros(): (r: Result<u64>)
      reads this
      ensures nextLine >= |lines| ==> r == Err(ScriptExhausted)
      ensures nextLine < |lines| ==> r == TimeInComment(lines[nextLine].comment)
    {
      if nextLine >= |lines| then Err(ScriptExhausted) else TimeInComment(lines[nextLine].comment)
    }
  }
}
