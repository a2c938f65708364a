/** The bias quantifier: for each genome it reads the tabular alignment hits
    (BLAST `-outfmt 6` lines), keeps those at or above an identity cutoff and
    sums the similar stretches they cover; it reads each genome's FASTA file
    for its raw base count and contig names; it files display names under
    genome keys; and it reports raw minus similar length per genome.

    Files are passed in as sequences of lines (each may still end in its
    line break, as Python's file iteration yields them). The program's
    `float()` and `int()` conversions are the parameters `toReal` and
    `toInt`, which answer `None` where Python raises `ValueError`. Every
    Python exception the modelled code can raise becomes a `Failure`. */
module QuantifyBias {
  import opened Wrappers
  import opened Text
  import opened FastaLines
  import opened Stretches
  import opened LimitedSize

  // ----- parse_m8_line ---------------------------------------------------

  /** One alignment hit: percent identity and the query coordinates, put in
      order. The identity is only ever compared with the cutoff. */
  datatype Hit = Hit(percId: real, start: int, end: int)

  /** Why a tabular line cannot be read: a column past the last field
      (`IndexError`) or a field that does not convert (`ValueError`). */
  datatype M8Error = MissingColumn(column: nat) | NotANumber(column: nat)

  /** Why the similar length of one alignment file cannot be computed: a
      line that cannot be read, or no hit reaching the cutoff (the program
      then indexes the first element of an empty list). */
  datatype StretchError = BadLine(index: nat, reason: M8Error) | NoSections

  function Min(a: int, b: int): int { if a <= b then a else b }

  function Max(a: int, b: int): int { if a <= b then b else a }

  /** The fields of one tabular line after splitting on tabs: identity from
      column 2, the query coordinates from columns 6 and 7 in either order.
      The columns are looked up and converted in that order, so the first
      one that is missing or malformed is the one reported. */
  function ParseM8Fields(tkns: seq<string>, toReal: string -> Option<real>, toInt: string -> Option<int>)
    : (r: Result<Hit, M8Error>)
    ensures r.Success? <==> |tkns| >= 8 && toReal(tkns[2]).Some? && toInt(tkns[6]).Some? && toInt(tkns[7]).Some?
    ensures r.Success? ==>
              && r.value.percId == toReal(tkns[2]).value
              && r.value.start <= r.value.end
              && var a, b := toInt(tkns[6]).value, toInt(tkns[7]).value;
                 (r.value.start, r.value.end) == (a, b) || (r.value.start, r.value.end) == (b, a)
    ensures r.Failure? && r.error.MissingColumn? ==>
              && (r.error.column == 2 || r.error.column == 6 || r.error.column == 7)
              && |tkns| <= r.error.column
    ensures r.Failure? && r.error.NotANumber? ==>
              && r.error.column < |tkns|
              && (r.error.column == 2 ==> toReal(tkns[2]).None?)
              && (r.error.column != 2 ==> (r.error.column == 6 || r.error.column == 7) && toInt(tkns[r.error.column]).None?)
    ensures r.Failure? && r.error.column > 2 ==> |tkns| > 2 && toReal(tkns[2]).Some?
    ensures r.Failure? && r.error.column > 6 ==> |tkns| > 6 && toInt(tkns[6]).Some?
  {
    if |tkns| <= 2 then Failure(MissingColumn(2))
    else match toReal(tkns[2])
      case None => Failure(NotANumber(2))
      case Some(percId) =>
        if |tkns| <= 6 then Failure(MissingColumn(6))
        else match toInt(tkns[6])
          case None => Failure(NotANumber(6))
          case Some(qstart) =>
            if |tkns| <= 7 then Failure(MissingColumn(7))
            else match toInt(tkns[7])
              case None => Failure(NotANumber(7))
              case Some(qend) => Success(Hit(percId, Min(qend, qstart), Max(qend, qstart)))
  }

  /** `parse_m8_line`: strip the line, split it on tabs and read the fields. */
  function ParseM8Line(line: string, toReal: string -> Option<real>, toInt: string -> Option<int>)
    : (r: Result<Hit, M8Error>)
    ensures r.Success? ==> r.value.start <= r.value.end
  {
    ParseM8Fields(Split(Strip(line), '\t'), toReal, toInt)
  }

  /** Swapping the two coordinate columns gives the same hit. */
  lemma ParseM8SwapColumns(tkns: seq<string>, toReal: string -> Option<real>, toInt: string -> Option<int>)
    requires |tkns| >= 8 && toInt(tkns[6]).Some? && toInt(tkns[7]).Some?
    ensures ParseM8Fields(tkns[6 := tkns[7]][7 := tkns[6]], toReal, toInt) == ParseM8Fields(tkns, toReal, toInt)
  {
  }

  /** The hits of every line of an alignment file, in file order, or the
      first line that cannot be read (ParseHitsFindsFirstBadLine). */
  function ParseHits(lines: seq<string>, toReal: string -> Option<real>, toInt: string -> Option<int>)
    : Result<seq<Hit>, StretchError>
    decreases |lines|
  {
    if lines == [] then Success([])
    else
      var n := |lines| - 1;
      match ParseHits(lines[..n], toReal, toInt)
      case Failure(e) => Failure(e)
      case Success(hits) =>
        match ParseM8Line(lines[n], toReal, toInt)
        case Failure(e) => Failure(BadLine(n, e))
        case Success(h) => Success(hits + [h])
  }

  /** The parse succeeds with one hit per line, or names the first line
      that cannot be read and why. */
  lemma {:induction false} ParseHitsFindsFirstBadLine(lines: seq<string>, toReal: string -> Option<real>, toInt: string -> Option<int>)
    ensures var r := ParseHits(lines, toReal, toInt);
            && (r.Success? ==>
                  && |r.value| == |lines|
                  && forall i :: 0 <= i < |lines| ==> ParseM8Line(lines[i], toReal, toInt) == Success(r.value[i]))
            && (r.Failure? ==>
                  && r.error.BadLine? && r.error.index < |lines|
                  && ParseM8Line(lines[r.error.index], toReal, toInt) == Failure(r.error.reason)
                  && forall j :: 0 <= j < r.error.index ==> ParseM8Line(lines[j], toReal, toInt).Success?)
    decreases |lines|
  {
    if lines != [] {
      var n := |lines| - 1;
      var prefix := lines[..n];
      ParseHitsFindsFirstBadLine(prefix, toReal, toInt);
      assert forall j :: 0 <= j < n ==> prefix[j] == lines[j];
      match ParseHits(prefix, toReal, toInt)
      case Failure(e) =>
      case Success(hits) =>
        match ParseM8Line(lines[n], toReal, toInt)
        case Failure(e) =>
        case Success(h) =>
          var all := hits + [h];
          forall i | 0 <= i < |lines|
            ensures ParseM8Line(lines[i], toReal, toInt) == Success(all[i])
          {
            if i < n {
              assert all[i] == hits[i] && prefix[i] == lines[i];
            }
          }
    }
  }

  /** Reading one more line extends the hits read so far, or stops there. */
  lemma ParseHitsStep(lines: seq<string>, i: nat, hits: seq<Hit>, toReal: string -> Option<real>, toInt: string -> Option<int>)
    requires i < |lines| && ParseHits(lines[..i], toReal, toInt) == Success(hits)
    ensures var p := ParseM8Line(lines[i], toReal, toInt);
            ParseHits(lines[..i + 1], toReal, toInt)
              == if p.Success? then Success(hits + [p.value]) else Failure(BadLine(i, p.error))
  {
    assert lines[..i + 1][..i] == lines[..i];
  }

  /** A line that cannot be read stops the parse: what follows it does not
      matter. */
  lemma {:induction false} ParseHitsStopsAtBadLine(lines: seq<string>, n: nat, toReal: string -> Option<real>, toInt: string -> Option<int>)
    requires n <= |lines| && ParseHits(lines[..n], toReal, toInt).Failure?
    ensures ParseHits(lines, toReal, toInt) == ParseHits(lines[..n], toReal, toInt)
    decreases |lines| - n
  {
    if n < |lines| {
      var m := |lines| - 1;
      assert lines[..m][..n] == lines[..n];
      ParseHitsStopsAtBadLine(lines[..m], n, toReal, toInt);
    } else {
      assert lines[..n] == lines;
    }
  }

  // ----- len_of_similar_stretches ----------------------------------------

  /** The hits at or above the cutoff, as sections, in file order. */
  function Kept(hits: seq<Hit>, simCutoff: real): (r: seq<Section>)
    ensures |r| <= |hits|
    decreases |hits|
  {
    if hits == [] then []
    else
      var n := |hits| - 1;
      var h := hits[n];
      Kept(hits[..n], simCutoff) + (if h.percId >= simCutoff then [Section(h.start, h.end)] else [])
  }

  /** A hit at or above the cutoff (a hit exactly at it included) has its
      section kept. */
  lemma {:induction false} KeptHasQualifyingHit(hits: seq<Hit>, simCutoff: real, i: nat)
    requires i < |hits| && hits[i].percId >= simCutoff
    ensures Section(hits[i].start, hits[i].end) in Kept(hits, simCutoff)
    decreases |hits|
  {
    var n := |hits| - 1;
    if i < n {
      assert hits[..n][i] == hits[i];
      KeptHasQualifyingHit(hits[..n], simCutoff, i);
    }
  }

  /** Every kept section is that of some hit at or above the cutoff. */
  lemma {:induction false} KeptOnlyQualifyingHits(hits: seq<Hit>, simCutoff: real, j: nat)
    requires j < |Kept(hits, simCutoff)|
    ensures exists i :: 0 <= i < |hits| && hits[i].percId >= simCutoff
                        && Kept(hits, simCutoff)[j] == Section(hits[i].start, hits[i].end)
    decreases |hits|
  {
    var n := |hits| - 1;
    var r' := Kept(hits[..n], simCutoff);
    if j < |r'| {
      KeptOnlyQualifyingHits(hits[..n], simCutoff, j);
      var i :| 0 <= i < n && hits[..n][i].percId >= simCutoff
               && r'[j] == Section(hits[..n][i].start, hits[..n][i].end);
      assert hits[..n][i] == hits[i];
    } else {
      assert Kept(hits, simCutoff)[j] == Section(hits[n].start, hits[n].end);
    }
  }

  predicate HitsOrdered(hits: seq<Hit>) {
    forall i :: 0 <= i < |hits| ==> hits[i].start <= hits[i].end
  }

  lemma KeptNormalized(hits: seq<Hit>, simCutoff: real)
    requires HitsOrdered(hits)
    ensures Normalized(Kept(hits, simCutoff))
  {
    var r := Kept(hits, simCutoff);
    forall j | 0 <= j < |r| ensures r[j].start <= r[j].end {
      KeptOnlyQualifyingHits(hits, simCutoff, j);
    }
  }

  /** `len_of_similar_stretches`: read the sections of the hits at or
      above the cutoff, sort them by start, then sweep them into windows and
      add up the window spans. It fails on the first line that cannot be
      read, and when no hit reaches the cutoff. */
  method LenOfSimilarStretches(lines: seq<string>, simCutoff: real,
                               toReal: string -> Option<real>, toInt: string -> Option<int>)
    returns (r: Result<int, StretchError>)
    ensures ParseHits(lines, toReal, toInt).Failure? ==> r == Failure(ParseHits(lines, toReal, toInt).error)
    ensures ParseHits(lines, toReal, toInt).Success? ==>
              var sections := SortByStart(Kept(ParseHits(lines, toReal, toInt).value, simCutoff));
              r == if sections == [] then Failure(NoSections) else Success(Coverage(sections))
    ensures r.Success? ==> r.value >= 0
    ensures r.Success? ==> r.value <= SumSpans(Kept(ParseHits(lines, toReal, toInt).value, simCutoff))
  {
    var read := ReadSimilarSections(lines, simCutoff, toReal, toInt);
    if read.Failure? {
      r := Failure(read.error);
      return;
    }
    var sections := SortByStart(read.value);
    if |sections| == 0 {
      r := Failure(NoSections);
      return;
    }
    var totBases := SumWindowSpans(sections);
    r := Success(totBases);
    ghost var hits := ParseHits(lines, toReal, toInt).value;
    KeptNormalized(hits, simCutoff);
    SortKeepsNormalized(read.value);
    CoverageNonNegative(sections);
    CoverageAtMostSpans(sections);
  }

  /** Raising the cutoff can raise the similar length: dropping a weak hit
      nested in a strong one stops it from shrinking the window. A hit of
      identity 95 over 0..100 and one of identity 50 over 10..20 give 20 at
      cutoff 40 but 100 at cutoff 90. */
  lemma RaisingCutoffCanRaiseCoverage()
    ensures var hits := [Hit(95.0, 0, 100), Hit(50.0, 10, 20)];
            && Coverage(SortByStart(Kept(hits, 40.0))) == 20
            && Coverage(SortByStart(Kept(hits, 90.0))) == 100
  {
    var hits := [Hit(95.0, 0, 100), Hit(50.0, 10, 20)];
    assert hits[..1] == [hits[0]] && hits[..1][..0] == [];
    var low, high := Kept(hits, 40.0), Kept(hits, 90.0);
    assert low == [Section(0, 100), Section(10, 20)];
    assert high == [Section(0, 100)];
    SortSorted(low);
    SortSorted(high);
    CoverageNestedShrinks();
    CoverageSingle(Section(0, 100));
  }

  /** The reading loop's state after the first `i` lines: they parse to
      `hits`, whose sections at or above the cutoff are `sections`. */
  predicate SectionsReadSoFar(lines: seq<string>, i: nat, simCutoff: real,
                              toReal: string -> Option<real>, toInt: string -> Option<int>,
                              hits: seq<Hit>, sections: seq<Section>)
    requires i <= |lines|
  {
    && ParseHits(lines[..i], toReal, toInt) == Success(hits)
    && sections == Kept(hits, simCutoff)
    && HitsOrdered(hits)
  }

  /** Line `i` either stops the whole parse there or adds one hit, and its
      section when the hit is at or above the cutoff. */
  lemma SectionsAdvance(lines: seq<string>, i: nat, simCutoff: real,
                        toReal: string -> Option<real>, toInt: string -> Option<int>,
                        hits: seq<Hit>, sections: seq<Section>)
    requires i < |lines| && SectionsReadSoFar(lines, i, simCutoff, toReal, toInt, hits, sections)
    ensures var p := ParseM8Line(lines[i], toReal, toInt);
            && (p.Failure? ==> ParseHits(lines, toReal, toInt) == Failure(BadLine(i, p.error)))
            && (p.Success? ==>
                  var h := p.value;
                  SectionsReadSoFar(lines, i + 1, simCutoff, toReal, toInt, hits + [h],
                                    sections + (if h.percId >= simCutoff then [Section(h.start, h.end)] else [])))
  {
    ParseHitsStep(lines, i, hits, toReal, toInt);
    var p := ParseM8Line(lines[i], toReal, toInt);
    if p.Failure? {
      ParseHitsStopsAtBadLine(lines, i + 1, toReal, toInt);
    } else {
      var h, hits' := p.value, hits + [p.value];
      assert hits'[..|hits|] == hits && hits'[|hits|] == h;
      assert Kept(hits', simCutoff) == sections + (if h.percId >= simCutoff then [Section(h.start, h.end)] else []);
      assert h.start <= h.end;
      assert HitsOrdered(hits');
    }
  }

  /** The reading loop of `len_of_similar_stretches`: parse each line in
      turn and append the section of each hit at or above the cutoff. */
  method ReadSimilarSections(lines: seq<string>, simCutoff: real,
                             toReal: string -> Option<real>, toInt: string -> Option<int>)
    returns (r: Result<seq<Section>, StretchError>)
    ensures ParseHits(lines, toReal, toInt).Failure? ==> r == Failure(ParseHits(lines, toReal, toInt).error)
    ensures ParseHits(lines, toReal, toInt).Success? ==>
              var hits := ParseHits(lines, toReal, toInt).value;
              r == Success(Kept(hits, simCutoff)) && HitsOrdered(hits)
  {
    var sections: seq<Section> := [];
    ghost var hits: seq<Hit> := [];
    var i := 0;
    while i < |lines|
      invariant i <= |lines| && SectionsReadSoFar(lines, i, simCutoff, toReal, toInt, hits, sections)
    {
      var p := ParseM8Line(lines[i], toReal, toInt);
      SectionsAdvance(lines, i, simCutoff, toReal, toInt, hits, sections);
      if p.Failure? {
        r := Failure(BadLine(i, p.error));
        return;
      }
      var hit := p.value;
      if hit.percId >= simCutoff {
        sections := sections + [Section(hit.start, hit.end)];
      }
      hits := hits + [hit];
      i := i + 1;
    }
    assert lines[..i] == lines;
    r := Success(sections);
  }

  /** The sweep's state after reading the sections `s`: `totBases` is the
      span of the closed windows, and the open window runs from `curStart`
      to `curEnd`. */
  predicate SweepAt(s: seq<Section>, totBases: int, curStart: int, curEnd: int) {
    var w := Windows(s);
    w != [] && totBases == SumSpans(w[..|w| - 1]) && w[|w| - 1] == Section(curStart, curEnd)
  }

  /** The sweep opens its first window on the first section. */
  lemma SweepStart(s: seq<Section>)
    requires |s| > 0
    ensures SweepAt(s[..1], 0, s[0].start, s[0].end)
  {
    assert s[..1] == [s[0]] && s[..1][..0] == [];
  }

  /** Section `j` either stretches the open window to its own end or closes
      it, adding its span to the total, and opens a window of its own. */
  lemma SweepAdvance(s: seq<Section>, j: nat, totBases: int, curStart: int, curEnd: int)
    requires 1 <= j < |s| && SweepAt(s[..j], totBases, curStart, curEnd)
    ensures s[j].start <= curEnd ==> SweepAt(s[..j + 1], totBases, curStart, s[j].end)
    ensures s[j].start > curEnd ==> SweepAt(s[..j + 1], totBases + (curEnd - curStart), s[j].start, s[j].end)
  {
    WindowsStep(s, j);
    var w := Windows(s[..j]);
    if s[j].start <= curEnd {
      assert (w[..|w| - 1] + [Section(curStart, s[j].end)])[..|w| - 1] == w[..|w| - 1];
    } else {
      SumSpansSnoc(w[..|w| - 1], w[|w| - 1]);
      assert w[..|w| - 1] + [w[|w| - 1]] == w;
      assert (w + [s[j]])[..|w|] == w;
    }
  }

  /** Closing the open window at the end gives the coverage. */
  lemma SweepFinish(s: seq<Section>, totBases: int, curStart: int, curEnd: int)
    requires SweepAt(s, totBases, curStart, curEnd)
    ensures totBases + (curEnd - curStart) == Coverage(s)
  {
    var w := Windows(s);
    SumSpansSnoc(w[..|w| - 1], w[|w| - 1]);
    assert w[..|w| - 1] + [w[|w| - 1]] == w;
  }

  /** The sweep of `len_of_similar_stretches` over the sorted sections,
      which it starts by taking the first one as the open window. */
  method SumWindowSpans(sections: seq<Section>) returns (totBases: int)
    requires |sections| > 0
    ensures totBases == Coverage(sections)
  {
    totBases := 0;
    var curStart, curEnd := sections[0].start, sections[0].end;
    SweepStart(sections);
    var j := 1;
    while j < |sections|
      invariant 1 <= j <= |sections|
      invariant SweepAt(sections[..j], totBases, curStart, curEnd)
    {
      var start, end := sections[j].start, sections[j].end;
      SweepAdvance(sections, j, totBases, curStart, curEnd);
      if start <= curEnd {
        curEnd := end;
      } else {
        totBases := totBases + (curEnd - curStart);
        curStart, curEnd := start, end;
      }
      j := j + 1;
    }
    assert sections[..j] == sections;
    SweepFinish(sections, totBases, curStart, curEnd);
    totBases := totBases + (curEnd - curStart);
  }

  // ----- parse_fasta_len -------------------------------------------------

  /** Why a FASTA file's length cannot be computed: a line that is blank
      once stripped (indexing its first character fails), or a header with
      no name after the `>` (taking the first word of nothing fails). */
  datatype FastaError = BlankLine(index: nat) | NamelessHeader(index: nat)

  /** What `parse_fasta_len` returns: the base count and the contig names. */
  datatype FastaSummary = FastaSummary(totBases: nat, chrs: seq<string>)

  /** A line `parse_fasta_len` gets through: not blank once stripped, and a
      header has a name. */
  predicate FastaLineOk(line: string) {
    var s := Strip(line);
    s != [] && (s[0] == '>' ==> FirstWord(s[1..]).Some?)
  }

  /** Every line, stripped. */
  function StripAll(lines: seq<string>): seq<string> {
    seq(|lines|, i requires 0 <= i < |lines| => Strip(lines[i]))
  }

  /** The name of each header among stripped lines (its first word after
      the `>`), in file order. */
  function HeaderNames(stripped: seq<string>): (r: seq<string>)
    ensures |r| <= |stripped|
  {
    if stripped == [] then []
    else
      var n := |stripped| - 1;
      var s := stripped[n];
      HeaderNames(stripped[..n])
        + (if IsHeader(s) then
             match FirstWord(s[1..])
             case None => []
             case Some(w) => [w]
           else [])
  }

  /** A non-empty string with no whitespace in it. */
  predicate IsWord(w: string) {
    w != [] && forall m :: 0 <= m < |w| ==> !IsSpace(w[m])
  }

  /** Every header name is a word: non-empty and free of whitespace. */
  lemma {:induction false} HeaderNamesAreWords(stripped: seq<string>)
    ensures forall k :: 0 <= k < |HeaderNames(stripped)| ==> IsWord(HeaderNames(stripped)[k])
    decreases |stripped|
  {
    if stripped != [] {
      var n := |stripped| - 1;
      var s := stripped[n];
      HeaderNamesAreWords(stripped[..n]);
      var r, r' := HeaderNames(stripped), HeaderNames(stripped[..n]);
      var named := IsHeader(s) && FirstWord(s[1..]).Some?;
      assert r == r' + (if named then [FirstWord(s[1..]).value] else []);
      forall k | 0 <= k < |r|
        ensures IsWord(r[k])
      {
        if k < |r'| {
          assert r[k] == r'[k];
        } else {
          assert named;
          FirstWordFollowsSpace(s[1..]);
          assert r[k] == FirstWord(s[1..]).value;
        }
      }
    }
  }

  /** The lines so far get through exactly when the lines before them do and
      the last one does; one bad line spoils every longer prefix. */
  lemma {:induction false} AllFastaLinesOkStops(lines: seq<string>, i: nat)
    requires i < |lines|
    ensures AllFastaLinesOk(lines[..i + 1]) <==> AllFastaLinesOk(lines[..i]) && FastaLineOk(lines[i])
    ensures !AllFastaLinesOk(lines[..i + 1]) ==> !AllFastaLinesOk(lines)
    decreases |lines| - i
  {
    assert lines[..i + 1][..i] == lines[..i];
    if i + 1 < |lines| {
      AllFastaLinesOkStops(lines, i + 1);
    } else {
      assert lines[..i + 1] == lines;
    }
  }

  lemma StripAllStep(lines: seq<string>, i: nat)
    requires i < |lines|
    ensures StripAll(lines[..i + 1]) == StripAll(lines[..i]) + [Strip(lines[i])]
  {
    assert lines[..i + 1][..i] == lines[..i];
  }

  lemma HeaderNamesSnoc(stripped: seq<string>, s: string)
    ensures HeaderNames(stripped + [s])
            == HeaderNames(stripped)
               + (if IsHeader(s) && FirstWord(s[1..]).Some? then [FirstWord(s[1..]).value] else [])
  {
    assert (stripped + [s])[..|stripped|] == stripped;
  }

  /** Every line is one `parse_fasta_len` gets through (AllFastaLinesOkMeans). */
  predicate AllFastaLinesOk(lines: seq<string>)
    decreases |lines|
  {
    lines == [] || (AllFastaLinesOk(lines[..|lines| - 1]) && FastaLineOk(lines[|lines| - 1]))
  }

  lemma {:induction false} AllFastaLinesOkMeans(lines: seq<string>)
    ensures AllFastaLinesOk(lines) <==> forall i :: 0 <= i < |lines| ==> FastaLineOk(lines[i])
    decreases |lines|
  {
    if lines != [] {
      var n := |lines| - 1;
      AllFastaLinesOkMeans(lines[..n]);
      assert forall i :: 0 <= i < n ==> lines[..n][i] == lines[i];
    }
  }

  /** The state of `parse_fasta_len` after reading the lines `prefix`: all
      of them got through, `totBases` counts their bases and `chrs` holds
      their header names. */
  predicate FastaReadSoFar(prefix: seq<string>, totBases: int, chrs: seq<string>) {
    && AllFastaLinesOk(prefix)
    && totBases == SeqLen(StripAll(prefix))
    && chrs == HeaderNames(StripAll(prefix))
  }

  /** How line `i` moves the state on: a sequence line adds its length, a
      named header adds its name, and a blank line or a nameless header
      spoils the whole file. */
  lemma FastaLenStep(lines: seq<string>, i: nat, totBases: int, chrs: seq<string>)
    requires i < |lines| && FastaReadSoFar(lines[..i], totBases, chrs)
    ensures var line := Strip(lines[i]);
            && (line == [] ==> !FastaLineOk(lines[i]) && !AllFastaLinesOk(lines))
            && (line != [] && line[0] != '>' ==> FastaReadSoFar(lines[..i + 1], totBases + |line|, chrs))
            && (line != [] && line[0] == '>' && FirstWord(line[1..]).None? ==>
                  !FastaLineOk(lines[i]) && !AllFastaLinesOk(lines))
            && (line != [] && line[0] == '>' && FirstWord(line[1..]).Some? ==>
                  FastaReadSoFar(lines[..i + 1], totBases, chrs + [FirstWord(line[1..]).value]))
  {
    var line := Strip(lines[i]);
    AllFastaLinesOkStops(lines, i);
    if line != [] {
      StripAllStep(lines, i);
      HeaderNamesSnoc(StripAll(lines[..i]), line);
      SeqLenAppend(StripAll(lines[..i]), [line]);
    }
  }

  /** `parse_fasta_len`: the total length of the sequence lines and the
      names of the header lines, each line stripped first. It fails at the
      first line that is blank or is a header without a name. */
  method ParseFastaLen(lines: seq<string>) returns (r: Result<FastaSummary, FastaError>)
    ensures r.Success? <==> AllFastaLinesOk(lines)
    ensures r.Failure? ==>
              var k := r.error.index;
              && k < |lines| && AllFastaLinesOk(lines[..k]) && !FastaLineOk(lines[k])
              && (r.error.BlankLine? <==> Strip(lines[k]) == [])
    ensures r.Success? ==>
              && r.value.totBases == SeqLen(StripAll(lines))
              && r.value.chrs == HeaderNames(StripAll(lines))
  {
    var totBases: nat := 0;
    var chrs: seq<string> := [];
    var i := 0;
    while i < |lines|
      invariant 0 <= i <= |lines|
      invariant FastaReadSoFar(lines[..i], totBases, chrs)
    {
      var line := Strip(lines[i]);
      FastaLenStep(lines, i, totBases, chrs);
      if |line| == 0 {
        return Failure(BlankLine(i));
      }
      if line[0] != '>' {
        totBases := totBases + |line|;
      } else {
        var name := FirstWord(line[1..]);
        if name.None? {
          return Failure(NamelessHeader(i));
        }
        chrs := chrs + [name.value];
      }
      i := i + 1;
    }
    assert lines[..i] == lines;
    return Success(FastaSummary(totBases, chrs));
  }

  /** Lines with nothing to strip are left as they are. */
  lemma StripAllUnpadded(lines: seq<string>)
    requires forall i :: 0 <= i < |lines| ==> Unpadded(lines[i])
    ensures StripAll(lines) == lines
  {
    forall i | 0 <= i < |lines| ensures StripAll(lines)[i] == lines[i] {
      StripUnpadded(lines[i]);
    }
  }

  /** Two contigs of six and four bases give ten bases. */
  lemma FastaLenExample()
    ensures SeqLen(StripAll([">seq1", "ACGT", "AC", ">seq2", "GGGG"])) == 10
  {
    var lines := [">seq1", "ACGT", "AC", ">seq2", "GGGG"];
    StripAllUnpadded(lines);
    SeqLenExample(lines);
  }

  lemma SeqLenExample(lines: seq<string>)
    requires lines == [">seq1", "ACGT", "AC", ">seq2", "GGGG"]
    ensures SeqLen(lines) == 10
  {
    assert Weight(lines[0]) == 0 && Weight(lines[1]) == 4 && Weight(lines[2]) == 2;
    assert Weight(lines[3]) == 0 && Weight(lines[4]) == 4;
    assert lines[..1][..0] == [];
    assert SeqLen(lines[..1]) == 0;
    assert lines[..2][..1] == lines[..1];
    assert SeqLen(lines[..2]) == 4;
    assert lines[..3][..2] == lines[..2];
    assert SeqLen(lines[..3]) == 6;
    assert lines[..4][..3] == lines[..3];
    assert SeqLen(lines[..4]) == 6;
  }

  /** When no line is blank, the size limiter's clean lines are just the
      stripped lines. */
  lemma {:induction false} CleanIsStripAll(lines: seq<string>, i: nat)
    requires i <= |lines|
    requires forall j :: 0 <= j < |lines| ==> Strip(lines[j]) != []
    ensures CleanFrom(lines, i) == StripAll(lines)[i..]
    decreases |lines| - i
  {
    if i < |lines| {
      CleanIsStripAll(lines, i + 1);
      var t := StripAll(lines);
      assert t[i..] == [t[i]] + t[i + 1..];
    }
  }

  /** The genome files are written by the size limiter: a genome that
      `parse_fasta_len` reads, whose base count is within the budget, comes
      out of the limiter line for line, stripped. */
  lemma LimitedGenomeWithinBudget(lines: seq<string>, baseLim: int)
    requires AllFastaLinesOk(lines) && SeqLen(StripAll(lines)) <= baseLim
    ensures Emit(lines, baseLim) == StripAll(lines)
  {
    AllFastaLinesOkMeans(lines);
    CleanIsStripAll(lines, 0);
    assert StripAll(lines)[0..] == StripAll(lines);
    EmitAllWithinBudget(lines, baseLim);
  }

  // ----- get_real_names --------------------------------------------------

  /** The comma-separated fields of a row of the genome table. */
  function Fields(row: string): seq<string> {
    Split(row, ',')
  }

  /** A row `get_real_names` can read: it has a third field. */
  predicate HasKeyField(row: string) {
    |Fields(row)| >= 3
  }

  /** The genome key of a row: its third field up to the first `.`, stripped. */
  function RowKey(row: string): (k: string)
    requires HasKeyField(row)
    ensures '.' !in k && Unpadded(k)
  {
    var f := Split(Fields(row)[2], '.');
    SplitPiecesAvoidSeparator(Fields(row)[2], '.');
    StripRemovesOnlySpace(f[0]);
    var k := Strip(f[0]);
    assert forall m :: 0 <= m < |k| ==> k[m] in f[0];
    k
  }

  /** The display name of a row: its first field. */
  function CommonName(row: string): string {
    Fields(row)[0]
  }

  /** The fields of a row `name,x,field...`: the first is the name and the
      third is `field`, whatever follows it after a comma. */
  lemma FieldsOfRow(name: string, x: string, field: string, tail: string)
    requires ',' !in name && ',' !in x && ',' !in field
    requires tail == [] || tail[0] == ','
    ensures var f := Fields(name + [','] + x + [','] + field + tail);
            |f| >= 3 && f[0] == name && f[2] == field
  {
    var row := name + [','] + x + [','] + field + tail;
    assert row == name + [','] + (x + [','] + (field + tail));
    SplitConcat(name, ',', x + [','] + (field + tail));
    SplitWithoutSeparator(name, ',');
    SplitConcat(x, ',', field + tail);
    SplitWithoutSeparator(x, ',');
    SplitFirstPiece(field, ',', tail);
  }

  /** The key rule of `get_real_names`: a row `name,x,stem.suffix,...` is
      filed under `stem` stripped, and under the whole third field, stripped,
      when that field has no `.`; its display name is `name`. */
  lemma RowKeyIsStem(name: string, x: string, stem: string, dotted: string, tail: string)
    requires ',' !in name && ',' !in x && ',' !in stem && ',' !in dotted
    requires '.' !in stem && (dotted == [] || dotted[0] == '.')
    requires tail == [] || tail[0] == ','
    ensures var row := name + [','] + x + [','] + stem + dotted + tail;
            && HasKeyField(row)
            && RowKey(row) == Strip(stem)
            && CommonName(row) == name
  {
    var row := name + [','] + x + [','] + stem + dotted + tail;
    assert row == name + [','] + x + [','] + (stem + dotted) + tail;
    FieldsOfRow(name, x, stem + dotted, tail);
    SplitFirstPiece(stem, '.', dotted);
  }

  /** No row after row `j` (and before `end`) has the same key. */
  predicate LastWithKey(rows: seq<string>, j: nat, end: nat)
    requires j < end <= |rows| && forall m :: j <= m < end ==> HasKeyField(rows[m])
  {
    forall m :: j < m < end ==> RowKey(rows[m]) != RowKey(rows[j])
  }

  /** The table built from the first `i` rows: each row's common name filed
      under its key, a later row replacing an earlier one. */
  function NameTable(rows: seq<string>, i: nat): map<string, string>
    requires i <= |rows| && forall j :: 0 <= j < i ==> HasKeyField(rows[j])
  {
    if i == 0 then map[]
    else NameTable(rows, i - 1)[RowKey(rows[i - 1]) := CommonName(rows[i - 1])]
  }

  /** Every row's key is in the table. */
  lemma {:induction false} NameTableHasEveryKey(rows: seq<string>, i: nat)
    requires i <= |rows| && forall j :: 0 <= j < i ==> HasKeyField(rows[j])
    ensures forall j :: 0 <= j < i ==> RowKey(rows[j]) in NameTable(rows, i)
  {
    if i > 0 {
      NameTableHasEveryKey(rows, i - 1);
      var t, t' := NameTable(rows, i), NameTable(rows, i - 1);
      assert t.Keys == t'.Keys + {RowKey(rows[i - 1])};
      forall j | 0 <= j < i ensures RowKey(rows[j]) in t {
        if j < i - 1 {
          assert RowKey(rows[j]) in t'.Keys;
        }
      }
    }
  }

  /** Every key in the table is the key of some row. */
  lemma {:induction false} NameTableKeysFromRows(rows: seq<string>, i: nat)
    requires i <= |rows| && forall j :: 0 <= j < i ==> HasKeyField(rows[j])
    ensures forall k :: k in NameTable(rows, i) ==> exists j :: 0 <= j < i && RowKey(rows[j]) == k
  {
    if i > 0 {
      NameTableKeysFromRows(rows, i - 1);
      var t, t' := NameTable(rows, i), NameTable(rows, i - 1);
      var key := RowKey(rows[i - 1]);
      assert t.Keys == t'.Keys + {key};
      forall k | k in t ensures exists j :: 0 <= j < i && RowKey(rows[j]) == k {
        if k == key {
          assert RowKey(rows[i - 1]) == k;
        } else {
          var j :| 0 <= j < i - 1 && RowKey(rows[j]) == k;
          assert 0 <= j < i && RowKey(rows[j]) == k;
        }
      }
    }
  }

  /** Each key holds the common name of the last row with that key. */
  lemma {:induction false} NameTableLastWins(rows: seq<string>, i: nat)
    requires i <= |rows| && forall j :: 0 <= j < i ==> HasKeyField(rows[j])
    ensures forall j :: 0 <= j < i && LastWithKey(rows, j, i) ==>
              RowKey(rows[j]) in NameTable(rows, i) && NameTable(rows, i)[RowKey(rows[j])] == CommonName(rows[j])
  {
    if i > 0 {
      NameTableLastWins(rows, i - 1);
      forall j | 0 <= j < i && LastWithKey(rows, j, i)
        ensures RowKey(rows[j]) in NameTable(rows, i) && NameTable(rows, i)[RowKey(rows[j])] == CommonName(rows[j])
      {
        if j < i - 1 {
          assert RowKey(rows[i - 1]) != RowKey(rows[j]);
          assert LastWithKey(rows, j, i - 1);
        }
      }
    }
  }

  /** `get_real_names`: file each row's common name under its genome key,
      a later row replacing an earlier one with the same key. It fails at
      the first row with fewer than three fields. */
  method GetRealNames(rows: seq<string>) returns (r: Result<map<string, string>, nat>)
    ensures r.Success? <==> forall j :: 0 <= j < |rows| ==> HasKeyField(rows[j])
    ensures r.Failure? ==>
              && r.error < |rows| && !HasKeyField(rows[r.error])
              && forall j :: 0 <= j < r.error ==> HasKeyField(rows[j])
    ensures r.Success? ==> r.value == NameTable(rows, |rows|)
  {
    var nameTbl: map<string, string> := map[];
    var i := 0;
    while i < |rows|
      invariant i <= |rows| && forall j :: 0 <= j < i ==> HasKeyField(rows[j])
      invariant nameTbl == NameTable(rows, i)
    {
      var tkns := Split(rows[i], ',');
      if |tkns| < 3 {
        return Failure(i);
      }
      var commonName := tkns[0];
      var gname := Strip(Split(tkns[2], '.')[0]);
      assert gname == RowKey(rows[i]) && commonName == CommonName(rows[i]);
      nameTbl := nameTbl[gname := commonName];
      i := i + 1;
    }
    return Success(nameTbl);
  }

  // ----- get_dissimilar_lengths ------------------------------------------

  /** `get_dissimilar_lengths`: for every genome with a raw length, its raw
      length minus its similar length. The similar-length table may hold
      more genomes; a genome missing from it fails the lookup, and the key
      reported is one such genome (the program meets them in dictionary
      order, which is not modelled). */
  method GetDissimilarLengths(lenTbl: map<string, int>, simTbl: map<string, int>)
    returns (r: Result<map<string, int>, string>)
    ensures r.Success? <==> lenTbl.Keys <= simTbl.Keys
    ensures r.Success? ==>
              && r.value.Keys == lenTbl.Keys
              && forall g :: g in r.value ==> r.value[g] == lenTbl[g] - simTbl[g]
    ensures r.Failure? ==> r.error in lenTbl && r.error !in simTbl
  {
    var disTbl: map<string, int> := map[];
    var remaining := lenTbl.Keys;
    while remaining != {}
      invariant remaining <= lenTbl.Keys
      invariant disTbl.Keys == lenTbl.Keys - remaining
      invariant forall g :: g in disTbl ==> g in simTbl && disTbl[g] == lenTbl[g] - simTbl[g]
      decreases |remaining|
    {
      var gname :| gname in remaining;
      if gname !in simTbl {
        return Failure(gname);
      }
      disTbl := disTbl[gname := lenTbl[gname] - simTbl[gname]];
      remaining := remaining - {gname};
    }
    return Success(disTbl);
  }

  // ----- genome names from paths -----------------------------------------

  /** The genome name of a file path: the last path component up to its
      first `.`; it names both FASTA files and alignment files. */
  function GenomeName(path: string): (g: string)
    ensures '/' !in g && '.' !in g
  {
    var parts := Split(path, '/');
    var base := parts[|parts| - 1];
    SplitPiecesAvoidSeparator(path, '/');
    SplitPiecesWithin(base, '.', '/');
    SplitPiecesAvoidSeparator(base, '.');
    Split(base, '.')[0]
  }

  /** A file `<dir>/<stem>.<suffix>` is named `<stem>`, whatever the
      directory and however many dots the suffix has. */
  lemma GenomeNameOfPath(dir: string, stem: string, suffix: string)
    requires '/' !in stem && '/' !in suffix && '.' !in stem
    ensures GenomeName(dir + "/" + stem + "." + suffix) == stem
  {
    var base := stem + "." + suffix;
    assert '/' !in base by {
      assert forall m :: 0 <= m < |base| ==> base[m] in stem || base[m] == '.' || base[m] in suffix;
    }
    assert dir + "/" + stem + "." + suffix == dir + ['/'] + base;
    SplitConcat(dir, '/', base);
    SplitWithoutSeparator(base, '/');
    assert stem + "." + suffix == stem + ['.'] + suffix;
    SplitConcat(stem, '.', suffix);
    SplitWithoutSeparator(stem, '.');
  }
}
