/** The line-list normaliser of the unified-diff helper (helpers/python/udiff.py):
    before two files are diffed, the header comment lines are dropped and the
    last line loses its trailing whitespace, so that a missing final newline
    makes no difference. The lines are given as the list `readlines` returns,
    each with its `\n` except possibly the last. */
module UDiff {
  import opened Common
  import opened Text

  /** The lines that do not start with the header, in their order. */
  function Filter(lines: seq<string>, header: string): (r: seq<string>)
    ensures |r| <= |lines|
    ensures forall x :: x in r ==> x in lines && !StartsWith(x, header)
  {
    if lines == [] then []
    else
      var rest := Filter(lines[..|lines| - 1], header);
      var last := lines[|lines| - 1];
      if StartsWith(last, header) then rest else rest + [last]
  }

  /** Filtering a concatenation filters each part: the kept lines keep their
      relative order. */
  lemma {:induction false} FilterAppend(a: seq<string>, b: seq<string>, header: string)
    ensures Filter(a + b, header) == Filter(a, header) + Filter(b, header)
  {
    if b != [] {
      var ab := a + b;
      assert ab[..|ab| - 1] == a + b[..|b| - 1];
      FilterAppend(a, b[..|b| - 1], header);
    } else {
      assert a + b == a;
    }
  }

  /** A line is kept exactly when it does not start with the header. */
  lemma {:induction false} FilterKeeps(lines: seq<string>, header: string, x: string)
    ensures x in Filter(lines, header) <==> x in lines && !StartsWith(x, header)
  {
    if lines != [] {
      FilterKeeps(lines[..|lines| - 1], header, x);
      assert lines == lines[..|lines| - 1] + [lines[|lines| - 1]];
    }
  }

  /** The number of header lines. */
  function HeaderCount(lines: seq<string>, header: string): nat
  {
    if lines == [] then 0
    else HeaderCount(lines[..|lines| - 1], header) + (if StartsWith(lines[|lines| - 1], header) then 1 else 0)
  }

  /** Exactly the header lines are dropped. */
  lemma {:induction false} FilterCount(lines: seq<string>, header: string)
    ensures |Filter(lines, header)| == |lines| - HeaderCount(lines, header)
  {
    if lines != [] {
      FilterCount(lines[..|lines| - 1], header);
    }
  }

  /** What `prepare_file` returns: the kept lines with the last one right-stripped;
      no kept line is an error, since the last line does not exist. */
  function Prepared(lines: seq<string>, header: string): Result<seq<string>>
  {
    var kept := Filter(lines, header);
    if kept == [] then Err(EmptyAfterFilter)
    else Ok(kept[..|kept| - 1] + [RStrip(kept[|kept| - 1])])
  }

  predicate EndsWithNewline(s: string)
  {
    s != [] && s[|s| - 1] == '\n'
  }

  /** Appending the newline and then stripping is stripping. */
  lemma RStripNewline(s: string)
    ensures RStrip(s + "\n") == RStrip(s)
  {
    var t := s + "\n";
    assert t[..|t| - 1] == s;
  }

  /** `prepare_file` on the lines of a file: filter, add the final newline when it
      is missing, then strip the last line. */
  method PrepareFile(input: seq<string>, header: string) returns (r: Result<seq<string>>)
    ensures r == Prepared(input, header)
    ensures r.Ok? ==> |r.value| == |input| - HeaderCount(input, header)
  {
    FilterCount(input, header);
    var lines := Filter(input, header);
    if lines == [] {
      return Err(EmptyAfterFilter);
    }
    var last := |lines| - 1;
    ghost var kept := lines;
    if !EndsWithNewline(lines[last]) {
      lines := lines[last := lines[last] + "\n"];
      RStripNewline(kept[last]);
    } else {
      assert kept[last] == kept[last][..|kept[last]| - 1] + "\n";
      RStripNewline(kept[last][..|kept[last]| - 1]);
    }
    lines := lines[last := RStrip(lines[last])];
    assert lines == kept[..last] + [RStrip(kept[last])];
    r := Ok(lines);
  }

  /** Every line but the last is left as it is, the last has no trailing
      whitespace, and the line count is the count of lines without the header. */
  lemma PreparedShape(lines: seq<string>, header: string)
    requires Prepared(lines, header).Ok?
    ensures var kept, out := Filter(lines, header), Prepared(lines, header).value;
            && |out| == |kept| > 0
            && out[..|out| - 1] == kept[..|kept| - 1]
            && RStrip(kept[|kept| - 1]) == out[|out| - 1]
            && (out[|out| - 1] == [] || !IsPythonWhitespace(out[|out| - 1][|out[|out| - 1]| - 1]))
  {
  }

  /** A file whose last line has no final newline prepares like the same file
      with it. */
  lemma FinalNewlineIrrelevant(lines: seq<string>, last: string, header: string)
    requires '\n' !in header
    ensures Prepared(lines + [last], header) == Prepared(lines + [last + "\n"], header)
  {
    FilterAppend(lines, [last], header);
    FilterAppend(lines, [last + "\n"], header);
    assert StartsWith(last, header) <==> StartsWith(last + "\n", header) by {
      if |header| <= |last| {
        assert (last + "\n")[..|header|] == last[..|header|];
      } else if StartsWith(last + "\n", header) {
        NewlineInHeader(last, header);
      }
    }
    assert Filter([last], header) == (if StartsWith(last, header) then [] else [last]);
    assert Filter([last + "\n"], header) == (if StartsWith(last, header) then [] else [last + "\n"]);
    RStripNewline(last);
  }

  /** A header that `last + "\n"` starts with, but that is longer than `last`,
      ends with the newline. */
  lemma NewlineInHeader(last: string, header: string)
    requires StartsWith(last + "\n", header) && |header| > |last|
    ensures '\n' in header
  {
    assert header[|last|] == (last + "\n")[|last|];
  }
}
