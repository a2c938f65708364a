/** The size-limited FASTA filter: it copies stripped, non-blank lines from
    its input until the number of sequence bases copied so far exceeds a
    budget. The budget is tested before each input line is looked at, so the
    line that crosses it is still copied and nothing after it is. */
module LimitedSize {
  import opened Text
  import opened FastaLines

  /** The stripped, non-blank input lines from line `i` on, in input order. */
  function CleanFrom(lines: seq<string>, i: nat): (c: seq<string>)
    requires i <= |lines|
    ensures |c| <= |lines| - i
    decreases |lines| - i
  {
    if i == |lines| then []
    else
      var s := Strip(lines[i]);
      (if s == [] then [] else [s]) + CleanFrom(lines, i + 1)
  }

  /** The stripped, non-blank input lines, in input order. */
  function Clean(lines: seq<string>): (c: seq<string>)
    ensures |c| <= |lines|
  {
    CleanFrom(lines, 0)
  }

  /** A line as the filter yields it: non-empty, with no whitespace at either end. */
  predicate CleanLine(line: string) {
    line != [] && Unpadded(line)
  }

  /** Every clean line is non-empty and has no whitespace at either end. */
  lemma {:induction false} CleanLinesStripped(lines: seq<string>, i: nat)
    requires i <= |lines|
    ensures forall k :: 0 <= k < |CleanFrom(lines, i)| ==> CleanLine(CleanFrom(lines, i)[k])
    decreases |lines| - i
  {
    if i < |lines| {
      CleanLinesStripped(lines, i + 1);
      var s, c' := Strip(lines[i]), CleanFrom(lines, i + 1);
      var c := CleanFrom(lines, i);
      var d := if s == [] then 0 else 1;
      assert c == (if s == [] then [] else [s]) + c';
      forall k | 0 <= k < |c| ensures CleanLine(c[k]) {
        if k >= d {
          assert c[k] == c'[k - d];
        }
      }
    }
  }

  /** The lines the filter yields from line `i` on, when `curLen` bases have
      already been counted against the budget `baseLim`. */
  function EmitFrom(lines: seq<string>, i: nat, baseLim: int, curLen: int): seq<string>
    requires i <= |lines|
    decreases |lines| - i
  {
    if i == |lines| || curLen > baseLim then []
    else
      var s := Strip(lines[i]);
      if s == [] then EmitFrom(lines, i + 1, baseLim, curLen)
      else [s] + EmitFrom(lines, i + 1, baseLim, curLen + Weight(s))
  }

  /** The lines the filter yields from all of `lines` under the budget `baseLim`. */
  function Emit(lines: seq<string>, baseLim: int): seq<string> {
    EmitFrom(lines, 0, baseLim, 0)
  }

  /** How the filter and the clean lines move on past input line `i` while
      the count is within budget. */
  lemma FilterStep(lines: seq<string>, i: nat, baseLim: int, curLen: int)
    requires i < |lines| && curLen <= baseLim
    ensures var s := Strip(lines[i]);
            && (s == [] ==> EmitFrom(lines, i, baseLim, curLen) == EmitFrom(lines, i + 1, baseLim, curLen))
            && (s == [] ==> CleanFrom(lines, i) == CleanFrom(lines, i + 1))
            && (s != [] ==> EmitFrom(lines, i, baseLim, curLen) == [s] + EmitFrom(lines, i + 1, baseLim, curLen + Weight(s)))
            && (s != [] ==> CleanFrom(lines, i) == [s] + CleanFrom(lines, i + 1))
  {
  }

  /** The output is a prefix of the clean lines. */
  lemma {:induction false} EmitIsPrefix(lines: seq<string>, i: nat, baseLim: int, curLen: int)
    requires i <= |lines|
    ensures var out, c := EmitFrom(lines, i, baseLim, curLen), CleanFrom(lines, i);
            |out| <= |c| && out == c[..|out|]
    decreases |lines| - i
  {
    if i < |lines| && curLen <= baseLim {
      var s := Strip(lines[i]);
      var c' := CleanFrom(lines, i + 1);
      FilterStep(lines, i, baseLim, curLen);
      if s == [] {
        EmitIsPrefix(lines, i + 1, baseLim, curLen);
      } else {
        EmitIsPrefix(lines, i + 1, baseLim, curLen + Weight(s));
        var out' := EmitFrom(lines, i + 1, baseLim, curLen + Weight(s));
        assert ([s] + c')[..|out'| + 1] == [s] + c'[..|out'|];
      }
    } else {
      assert EmitFrom(lines, i, baseLim, curLen) == [];
    }
  }

  /** Every line in the output was read while the count stood at or under
      the budget; since the count only grows, it is enough to say this of
      the last one. */
  lemma {:induction false} EmitWithinBudget(lines: seq<string>, i: nat, baseLim: int, curLen: int)
    requires i <= |lines|
    ensures var out := EmitFrom(lines, i, baseLim, curLen);
            |out| > 0 ==> curLen + SeqLen(out[..|out| - 1]) <= baseLim
    decreases |lines| - i
  {
    if i < |lines| && curLen <= baseLim {
      var s := Strip(lines[i]);
      FilterStep(lines, i, baseLim, curLen);
      if s == [] {
        EmitWithinBudget(lines, i + 1, baseLim, curLen);
      } else {
        var rest := EmitFrom(lines, i + 1, baseLim, curLen + Weight(s));
        var out := [s] + rest;
        EmitWithinBudget(lines, i + 1, baseLim, curLen + Weight(s));
        if rest != [] {
          assert out[..|out| - 1] == [s] + rest[..|rest| - 1];
          SeqLenCons(s, rest[..|rest| - 1]);
        } else {
          assert out[..|out| - 1] == [];
        }
      }
    } else {
      assert EmitFrom(lines, i, baseLim, curLen) == [];
    }
  }

  /** When the output stops short of the clean lines, the count it reached
      is over the budget. */
  lemma {:induction false} EmitStopsOverBudget(lines: seq<string>, i: nat, baseLim: int, curLen: int)
    requires i <= |lines|
    ensures var out := EmitFrom(lines, i, baseLim, curLen);
            |out| < |CleanFrom(lines, i)| ==> curLen + SeqLen(out) > baseLim
    decreases |lines| - i
  {
    if i == |lines| {
      assert CleanFrom(lines, i) == [];
    } else if curLen > baseLim {
      assert EmitFrom(lines, i, baseLim, curLen) == [];
    } else {
      var s := Strip(lines[i]);
      FilterStep(lines, i, baseLim, curLen);
      if s == [] {
        EmitStopsOverBudget(lines, i + 1, baseLim, curLen);
      } else {
        var rest := EmitFrom(lines, i + 1, baseLim, curLen + Weight(s));
        EmitStopsOverBudget(lines, i + 1, baseLim, curLen + Weight(s));
        SeqLenCons(s, rest);
      }
    }
  }

  /** The stopping rule: the output is a prefix of the clean lines; every
      line in it was read while the count stood at or under the budget; and
      when the output stops short, the count it reached is over the budget. */
  lemma EmitBudgetRule(lines: seq<string>, baseLim: int)
    ensures var out, c := Emit(lines, baseLim), Clean(lines);
            && |out| <= |c| && out == c[..|out|]
            && (|out| > 0 ==> SeqLen(out[..|out| - 1]) <= baseLim)
            && (|out| < |c| ==> SeqLen(out) > baseLim)
  {
    EmitIsPrefix(lines, 0, baseLim, 0);
    EmitWithinBudget(lines, 0, baseLim, 0);
    EmitStopsOverBudget(lines, 0, baseLim, 0);
  }

  /** Every line the filter yields is stripped and non-empty. */
  lemma EmitLinesStripped(lines: seq<string>, baseLim: int)
    ensures var out := Emit(lines, baseLim);
            forall k :: 0 <= k < |out| ==> CleanLine(out[k])
  {
    var out, c := Emit(lines, baseLim), Clean(lines);
    EmitIsPrefix(lines, 0, baseLim, 0);
    CleanLinesStripped(lines, 0);
    assert forall k :: 0 <= k < |out| ==> out[k] == c[k];
  }

  /** The filter's state before input line `i`: `curLen` counts the bases
      in what it has yielded so far, `out`, and the lines it will still
      yield complete `out` to the whole output. */
  predicate FilterAt(lines: seq<string>, baseLim: int, i: nat, curLen: int, out: seq<string>) {
    && i <= |lines|
    && curLen == SeqLen(out)
    && out + EmitFrom(lines, i, baseLim, curLen) == Emit(lines, baseLim)
  }

  /** One turn of the filter's loop with the count within budget: a blank
      line is passed over; any other line is appended to what has been
      yielded, and its weight to the count. */
  lemma FilterAdvance(lines: seq<string>, baseLim: int, i: nat, curLen: int, out: seq<string>)
    requires i < |lines| && curLen <= baseLim && FilterAt(lines, baseLim, i, curLen, out)
    ensures var s := Strip(lines[i]);
            && (s == [] ==> FilterAt(lines, baseLim, i + 1, curLen, out))
            && (s != [] ==> FilterAt(lines, baseLim, i + 1, curLen + Weight(s), out + [s]))
  {
    var s := Strip(lines[i]);
    FilterStep(lines, i, baseLim, curLen);
    if s != [] {
      var rest := EmitFrom(lines, i + 1, baseLim, curLen + Weight(s));
      assert (out + [s]) + rest == out + ([s] + rest);
      assert (out + [s])[..|out|] == out;
    }
  }

  /** The filter has yielded everything once the input is used up or the
      count is over the budget. */
  lemma FilterDone(lines: seq<string>, baseLim: int, i: nat, curLen: int, out: seq<string>)
    requires FilterAt(lines, baseLim, i, curLen, out) && (i == |lines| || curLen > baseLim)
    ensures out == Emit(lines, baseLim)
  {
    assert EmitFrom(lines, i, baseLim, curLen) == [];
    assert out + [] == out;
  }

  /** `parseFasta(baseLim)` over the input lines `lines`; the yielded lines
      are collected in `out`. */
  method ParseFasta(lines: seq<string>, baseLim: int) returns (out: seq<string>)
    ensures out == Emit(lines, baseLim)
    ensures |out| <= |Clean(lines)| && out == Clean(lines)[..|out|]
    ensures forall k :: 0 <= k < |out| ==> CleanLine(out[k])
    ensures |out| > 0 ==> SeqLen(out[..|out| - 1]) <= baseLim
    ensures |out| < |Clean(lines)| ==> SeqLen(out) > baseLim
  {
    var curLen := 0;
    out := [];
    var i := 0;
    while i < |lines|
      invariant FilterAt(lines, baseLim, i, curLen, out)
    {
      if curLen > baseLim {
        break;
      }
      FilterAdvance(lines, baseLim, i, curLen, out);
      var line := Strip(lines[i]);
      ghost var prevLen := curLen;
      if |line| == 0 {
        i := i + 1;
        continue;
      } else if line[0] != '>' {
        curLen := curLen + |line|;
      }
      assert curLen == prevLen + Weight(line);
      out := out + [line];
      i := i + 1;
    }
    FilterDone(lines, baseLim, i, curLen, out);
    EmitBudgetRule(lines, baseLim);
    EmitLinesStripped(lines, baseLim);
  }

  /** A negative budget is exceeded before the first line is read. */
  lemma EmitNothingUnderNegativeBudget(lines: seq<string>, baseLim: int)
    requires baseLim < 0
    ensures Emit(lines, baseLim) == []
  {
    EmitBudgetRule(lines, baseLim);
  }

  /** When the whole input fits the budget, every non-blank line is copied. */
  lemma EmitAllWithinBudget(lines: seq<string>, baseLim: int)
    requires SeqLen(Clean(lines)) <= baseLim
    ensures Emit(lines, baseLim) == Clean(lines)
  {
    var out, c := Emit(lines, baseLim), Clean(lines);
    EmitBudgetRule(lines, baseLim);
    SeqLenPrefix(c, |out|);
  }

  /** The overshoot is at most the last line copied: the count before it was
      within the budget. */
  lemma EmitOvershootBounded(lines: seq<string>, baseLim: int)
    ensures var out := Emit(lines, baseLim);
            |out| > 0 ==> SeqLen(out) <= baseLim + Weight(out[|out| - 1])
  {
    EmitBudgetRule(lines, baseLim);
  }

  /** Budget 5 over two records: `ACGT` and `AC` bring the count to 6, so
      the second header is not copied. */
  lemma EmitExample()
    ensures Emit([">seq1", "ACGT", "AC", ">seq2", "GGGG"], 5) == [">seq1", "ACGT", "AC"]
  {
    var lines := [">seq1", "ACGT", "AC", ">seq2", "GGGG"];
    StripUnpadded(">seq1");
    StripUnpadded("ACGT");
    StripUnpadded("AC");
    assert EmitFrom(lines, 3, 5, 6) == [];
    assert EmitFrom(lines, 2, 5, 4) == ["AC"];
    assert EmitFrom(lines, 1, 5, 0) == ["ACGT", "AC"];
  }

  /** Line ends are stripped, a blank line is dropped without counting, a
      header is copied without counting, and `AC` takes the count past the
      budget of 1 so that `G` is not copied. */
  lemma EmitBlankLinesExample()
    ensures Emit([">r\n", "\n", "AC\n", "G\n"], 1) == [">r", "AC"]
  {
    var lines := [">r\n", "\n", "AC\n", "G\n"];
    StripLineEnd(">r");
    assert ">r" + "\n" == ">r\n";
    StripBlank("\n");
    StripLineEnd("AC");
    assert "AC" + "\n" == "AC\n";
    assert EmitFrom(lines, 3, 1, 2) == [];
    assert EmitFrom(lines, 2, 1, 0) == ["AC"];
    assert EmitFrom(lines, 1, 1, 0) == ["AC"];
  }
}
