# Genome bias quantifier and size-limited FASTA filter, in Dafny

This project models two small Python scripts from a genome-comparison
pipeline and proves properties of the model.

- `quantify_bias.py` reports, for each genome, how much of it is *not* covered
  by similar stretches. It does this in four steps:
  - It reads BLAST tabular alignment lines (`-outfmt 6`, one hit per line).
  - It keeps the hits whose percent identity reaches a cutoff.
  - It sorts their query intervals by start and sweeps them into windows.
    The sum of the window spans is the similar length.
  - It subtracts that from the genome's raw base count. The base count is
    read from the genome's FASTA file, together with its contig names.

  Genome names are derived from file paths. A CSV table maps genome keys to
  display names.
- `limited_size.py` (`parseFasta`) copies stripped, non-blank FASTA lines
  until the number of sequence bases copied exceeds a budget. The budget is
  tested before each line, so the line that crosses it is still copied.

Modules:

- `Wrappers`: `Option` and `Result`.
- `Text`: the Python string operations the scripts use.
  - `strip()`, with Python's whitespace set;
  - `split(sep)`;
  - `split()[0]`.
- `FastaLines`: header lines and base counting, shared by both scripts.
- `Stretches`: the sections, the stable sort by start, the sweep (`Windows`)
  and the similar length (`Coverage`), as specification functions.
- `LimitedSize`: `parseFasta` as the method `ParseFasta`, with the
  specification function `Emit`.
- `QuantifyBias`: the operations of `quantify_bias.py`.
  - The loops of the source are methods:
    - `ReadSimilarSections` and `SumWindowSpans`, which
      `LenOfSimilarStretches` calls;
    - `ParseFastaLen`;
    - `GetRealNames`;
    - `GetDissimilarLengths`.
  - The pure parts are functions.

Files are modelled as sequences of lines, which may still end in a line
break. Every Python exception the modelled code can raise becomes a
`Failure`:

- an `IndexError` from a missing column, from `sections[0]`, from
  `line[0]` on a blank line, or from `line[1:].split()[0]` on a header with
  no name (`NamelessHeader`), or from `tkns[2]` on a genome-table row with
  fewer than three fields;
- a `ValueError` from a number that does not parse;
- a `KeyError` from a genome missing from the similarity table.

Python's `float()` and `int()` are the parameters `toReal` and `toInt`. They
answer `None` where Python raises. Identity and cutoff are reals that are only
ever compared with `>=`, so whether the cutoff is a fraction or a percentage
does not matter to the model.

Behaviour of the code that a reader might not expect, which the model
follows as written:

- **No qualifying hit.** An alignment file with no hit at or above the cutoff
  makes the program index the first element of an empty list, so it raises
  instead of reporting a coverage of 0. The model keeps this as
  `Failure(NoSections)`.
- **Window end on overlap.** When a section overlaps the window, the window
  end is *assigned* the section's end, not raised to the maximum. So a
  section nested in the window shrinks it (`CoverageNestedShrinks`).
  - Because of this, the order of sections with equal starts matters, and the
    model sorts stably, as Python's `sorted` does
    (`CoverageDependsOnTieOrder`).
  - Also because of this, raising the cutoff can *raise* the similar length
    (`RaisingCutoffCanRaiseCoverage`): the similar length is not monotone in
    the cutoff.
- **Touching sections.** Sections that touch (`[0,10], [10,20]`) are merged
  into one window, yet the result, 20, equals the sum of their spans
  (`CoverageTouching`). So "coverage equals the sum of the spans" does not
  mean "no two sections overlap or touch"; only the inequality
  (`CoverageAtMostSpans`) holds in general.
- **Blank FASTA lines.** `parse_fasta_len` does not skip a line that is blank
  after stripping: `line[0]` raises on it. Only `parseFasta` skips blank
  lines.

## Model

| member | source | states |
|---|---|---|
| Text.Strip | quantify_bias.py:33 | `line.strip()`: the result is no longer than the line and has no whitespace (Python's `isspace` set) at either end |
| Text.StripRemovesOnlySpace | limited_size.py:10 | what `strip()` keeps is one contiguous slice of the line, starting after its leading whitespace, and everything it drops on either side is whitespace |
| Text.StripFrontStep | limited_size.py:10 | dropping one leading whitespace character moves the kept slice one place on |
| Text.StripBackStep | limited_size.py:10 | dropping one trailing whitespace character leaves the kept slice where it is |
| Text.StripIdempotent | limited_size.py:10 | stripping twice is stripping once |
| Text.StripUnpadded | quantify_bias.py:33 | a line with no whitespace at either end is left unchanged |
| Text.StripLineEnd | limited_size.py:7-10 | `strip()` removes the line break that line iteration leaves on each line |
| Text.StripBlank | limited_size.py:10-12 | a line of whitespace strips to the empty string |
| Text.Split | quantify_bias.py:21 | `split(sep)` always yields at least one piece |
| Text.SplitPiecesAvoidSeparator | quantify_bias.py:21 | no piece of `split(sep)` contains the separator |
| Text.SplitJoin | quantify_bias.py:21 | joining the pieces with the separator gives back the original string |
| Text.SplitWithoutSeparator | quantify_bias.py:46 | a string without the separator splits into itself alone |
| Text.SplitConcat | quantify_bias.py:46 | splitting `a + sep + b` gives the pieces of `a` followed by the pieces of `b` |
| Text.SplitFirstPiece | quantify_bias.py:23 | a piece without the separator, followed by nothing or by the separator, is the first piece of the split |
| Text.SplitPiecesWithin | quantify_bias.py:46 | a character absent from the string is absent from every piece |
| Text.FirstWord | quantify_bias.py:37 | `s.split()[0]`: nothing for an all-whitespace string, otherwise the first run of non-whitespace characters (pinned down by `FirstWordNone` and `FirstWordFollowsSpace`) |
| Text.FirstWordNone | quantify_bias.py:37 | `split()[0]` fails (None) exactly when the string is all whitespace |
| Text.FirstWordFollowsSpace | quantify_bias.py:37 | the first word is non-empty, has no whitespace, is preceded only by whitespace and ends at whitespace or at the end |
| FastaLines.Weight | limited_size.py:13-14 | a stripped line that is neither empty nor a `>` header counts its full length; an empty line or a header counts 0 |
| FastaLines.SeqLen | quantify_bias.py:32-35 | the base total of a list of stripped lines: the lengths of its non-header lines added up (its additivity is `SeqLenAppend`) |
| LimitedSize.Clean | limited_size.py:10-12 | the stripped non-blank lines are at most as many as the input lines |
| LimitedSize.CleanLinesStripped | limited_size.py:10-12 | every clean line is non-empty and has no whitespace at either end |
| LimitedSize.EmitFrom | limited_size.py:7-15 | what the generator yields from input line `i` on with `curLen` bases counted: nothing once the input ends or the count exceeds the budget; a blank line skipped; any other line stripped and yielded, a sequence line adding its length |
| LimitedSize.Emit | limited_size.py:5-15 | what `parseFasta(baseLim)` yields from the whole input, starting from a count of 0; `EmitBudgetRule` characterises it |
| LimitedSize.EmitIsPrefix | limited_size.py:7-15 | what `parseFasta` yields is an order-preserving prefix of the stripped non-blank lines |
| LimitedSize.EmitWithinBudget | limited_size.py:8-9 | every yielded line was read while the running count was at or under the budget |
| LimitedSize.EmitStopsOverBudget | limited_size.py:8-9 | if the output stops before the clean lines run out, the count it reached exceeds the budget |
| LimitedSize.EmitLinesStripped | limited_size.py:10-15 | every yielded line is non-empty and has no whitespace at either end |
| LimitedSize.EmitBudgetRule | limited_size.py:8-15 | the stopping rule: prefix of the clean lines, count at or under budget before the last yielded line, over budget when it stops short |
| LimitedSize.FilterAdvance | limited_size.py:8-15 | one turn of the loop within budget keeps the loop state: the count is the base count of what was yielded, and what is still to come completes the output |
| LimitedSize.FilterDone | limited_size.py:7-9 | once the input is used up or the count is over budget, what was yielded is the whole output |
| LimitedSize.ParseFasta | limited_size.py:5-15 | the loop with `break`/`continue` yields exactly `Emit`; its output is a prefix of the clean lines, every line stripped and non-empty, the count before the last line within budget and over it if the output stops short |
| LimitedSize.EmitNothingUnderNegativeBudget | limited_size.py:8-9 | a negative budget yields nothing |
| LimitedSize.EmitAllWithinBudget | limited_size.py:7-15 | if the total base count is within the budget, every non-blank line is yielded |
| LimitedSize.EmitOvershootBounded | limited_size.py:8-15 | the count overshoots the budget by at most the length of the last line yielded |
| LimitedSize.EmitExample | limited_size.py:8-15 | budget 5 over `>seq1, ACGT, AC, >seq2, GGGG` yields `>seq1, ACGT, AC`: the line that crosses the budget is kept, the header after it is not |
| LimitedSize.EmitBlankLinesExample | limited_size.py:10-15 | line ends are stripped, a blank line is dropped without counting, a header is yielded without counting |
| Stretches.Insert | quantify_bias.py:69 | inserting into a sorted list gives a sorted list one longer holding only the new section and the old ones |
| Stretches.InsertPermutes | quantify_bias.py:69 | insertion is a permutation of the new section and the list |
| Stretches.InsertSpans | quantify_bias.py:69 | insertion adds exactly the new section's span |
| Stretches.InsertStable | quantify_bias.py:69 | among sections with the same start, the inserted one comes before those already there |
| Stretches.SortByStart | quantify_bias.py:69 | `sorted(sections, key=start)`: sorted by start, a permutation of the input with the same total span, and stable (each group of equal starts keeps its input order) |
| Stretches.SortKeepsNormalized | quantify_bias.py:69 | sorting keeps every section's start at or before its end |
| Stretches.SortedByGroups | quantify_bias.py:69 | two sorted lists with the same groups of equal starts are equal, so a stable sort is unique |
| Stretches.SortIgnoresOrderOfDistinctStarts | quantify_bias.py:69 | inputs that differ only in the order of sections with different starts sort to the same list |
| Stretches.SortSorted | quantify_bias.py:69 | sorting sections already in order leaves them unchanged |
| Stretches.Windows | quantify_bias.py:72-79 | the sweep forms at most one window per section, and none only for no sections |
| Stretches.Coverage | quantify_bias.py:71-79 | the similar length the sweep computes: the spans of its windows added up; bounded by `CoverageAtMostSpans` and `CoverageNonNegative` |
| Stretches.CoverageAtMostSpans | quantify_bias.py:71-79 | the similar length never exceeds the sum of the kept sections' spans |
| Stretches.WindowsSeparated | quantify_bias.py:74-78 | each window closed by the sweep ends strictly before the next one starts |
| Stretches.WindowsOfSeparated | quantify_bias.py:74-78 | sections that are already separated are their own windows |
| Stretches.WindowsIdempotent | quantify_bias.py:71-79 | sweeping the windows again changes nothing |
| Stretches.WindowsNormalized | quantify_bias.py:71-79 | over sorted sections with start at or before end, every window has start at or before end |
| Stretches.CoverageNonNegative | quantify_bias.py:71-79 | over sorted normalised sections the similar length is never negative |
| Stretches.CoverageSingle | quantify_bias.py:72-79 | one section gives its own span |
| Stretches.CoverageTouching | quantify_bias.py:74-75 | `[0,10], [10,20]` merge and give 20, the same as the sum of their spans |
| Stretches.CoverageGap | quantify_bias.py:76-78 | `[0,10], [11,20]` stay apart and give 10 + 9 = 19 |
| Stretches.CoverageNestedShrinks | quantify_bias.py:75 | `[0,100], [10,20]` give 20, not 100: the window end is assigned, not maximised |
| Stretches.CoverageDuplicate | quantify_bias.py:74-75 | a duplicated section `[10,20], [10,20]` counts once: 10 |
| Stretches.CoverageDependsOnTieOrder | quantify_bias.py:69-75 | sorting `[0,100], [0,10]` keeps their order and gives 10 |
| Stretches.CoverageDependsOnTieOrderReversed | quantify_bias.py:69-75 | sorting `[0,10], [0,100]` keeps their order and gives 100 |
| QuantifyBias.ParseM8Fields | quantify_bias.py:55-58 | the fields give a hit exactly when there are at least 8 and columns 2, 6 and 7 convert; the identity is column 2 and the hit's start and end are columns 6 and 7 ordered as min, max; a failure names a column that is missing or does not convert, and every column read before it (2, then 6, then 7) is present and converts |
| QuantifyBias.ParseM8Line | quantify_bias.py:53-59 | a parsed line has start at or before end |
| QuantifyBias.ParseM8SwapColumns | quantify_bias.py:56-58 | swapping columns 6 and 7 gives the same hit |
| QuantifyBias.ParseHits | quantify_bias.py:65-66 | the hits of every line of an alignment file in file order, or the first line that does not parse (`ParseHitsFindsFirstBadLine`) |
| QuantifyBias.ParseHitsFindsFirstBadLine | quantify_bias.py:65-66 | reading the file gives one hit per line in order, or fails at the first line that does not parse, with that line's reason |
| QuantifyBias.ParseHitsStopsAtBadLine | quantify_bias.py:65-66 | after a line that does not parse, the rest of the file does not matter |
| QuantifyBias.Kept | quantify_bias.py:67-68 | the kept sections are no more than the hits |
| QuantifyBias.KeptHasQualifyingHit | quantify_bias.py:67-68 | a hit with identity at or above the cutoff (one exactly at it included) has its section kept |
| QuantifyBias.KeptOnlyQualifyingHits | quantify_bias.py:67-68 | every kept section is that of a hit at or above the cutoff |
| QuantifyBias.KeptNormalized | quantify_bias.py:66-68 | kept sections have start at or before end |
| QuantifyBias.SectionsAdvance | quantify_bias.py:65-68 | one turn of the reading loop: a bad line is the failure of the whole file; otherwise its hit is appended, and its section too when the identity reaches the cutoff |
| QuantifyBias.ReadSimilarSections | quantify_bias.py:63-68 | the reading loop returns the sections of the hits at or above the cutoff in file order, or the first bad line's failure; every hit read is ordered |
| QuantifyBias.SweepStart | quantify_bias.py:71-72 | the sweep starts with nothing counted and the first section as the open window |
| QuantifyBias.SweepAdvance | quantify_bias.py:73-78 | one turn of the sweep: an overlapping section sets the open window's end; any other closes the window, adds its span and opens a new one |
| QuantifyBias.SweepFinish | quantify_bias.py:79 | closing the last window gives the coverage of all the sections |
| QuantifyBias.SumWindowSpans | quantify_bias.py:71-79 | the sweep loop over non-empty sorted sections returns `Coverage`, the sum of the window spans |
| QuantifyBias.LenOfSimilarStretches | quantify_bias.py:62-81 | fails at the first bad line, fails with `NoSections` when no hit reaches the cutoff, else returns the coverage of the sorted kept sections, which is at least 0 and at most the sum of their spans |
| QuantifyBias.RaisingCutoffCanRaiseCoverage | quantify_bias.py:67-79 | hits 95% over 0..100 and 50% over 10..20 give 20 at cutoff 40 but 100 at cutoff 90 |
| QuantifyBias.HeaderNames | quantify_bias.py:36-38 | at most one name per line |
| QuantifyBias.HeaderNamesAreWords | quantify_bias.py:37-38 | every header name is non-empty and free of whitespace |
| QuantifyBias.AllFastaLinesOkStops | quantify_bias.py:32-38 | a prefix is readable exactly when the shorter prefix and the new line are, and one bad line spoils every longer prefix |
| QuantifyBias.AllFastaLinesOkMeans | quantify_bias.py:32-38 | the file is readable exactly when every line is non-blank after stripping and every header has a name |
| QuantifyBias.FastaLenStep | quantify_bias.py:32-38 | one turn of the loop: a sequence line adds its length, a named header adds its name, and a blank line or a nameless header makes the whole file unreadable |
| QuantifyBias.ParseFastaLen | quantify_bias.py:28-39 | succeeds exactly when every line is readable; the total is the summed length of the stripped non-header lines and the names are the headers' first words in file order; a failure names the first bad line and says whether it was blank |
| QuantifyBias.StripAllUnpadded | quantify_bias.py:33 | lines with nothing to strip are left as they are |
| QuantifyBias.FastaLenExample | quantify_bias.py:32-35 | `>seq1, ACGT, AC, >seq2, GGGG` give 10 bases |
| QuantifyBias.SeqLenExample | quantify_bias.py:34-35 | only the non-header lines are counted: 4 + 2 + 4 |
| QuantifyBias.CleanIsStripAll | limited_size.py:10-12 | when no line is blank, the filter's clean lines are the stripped lines |
| QuantifyBias.LimitedGenomeWithinBudget | limited_size.py:5-15 | a genome that `parse_fasta_len` reads, whose base count is within the budget, comes out of `parseFasta` unchanged apart from stripping |
| QuantifyBias.RowKey | quantify_bias.py:23 | the genome key of a row contains no `.` and has no whitespace at either end |
| QuantifyBias.FieldsOfRow | quantify_bias.py:21-22 | splitting a row `name,x,field,...` on commas gives at least three fields, the first `name` and the third `field` |
| QuantifyBias.RowKeyIsStem | quantify_bias.py:21-24 | a row `name,x,stem.suffix,...` is filed under `stem` stripped, and one whose third field has no `.` under that whole field stripped; its display name is `name` |
| QuantifyBias.NameTable | quantify_bias.py:20-24 | the table after the first `i` rows: each row's display name filed under its key, a later row replacing an earlier one (its keys and values are pinned down by the three lemmas below) |
| QuantifyBias.NameTableHasEveryKey | quantify_bias.py:20-24 | every row's key is in the table |
| QuantifyBias.NameTableKeysFromRows | quantify_bias.py:20-24 | every key in the table is the key of some row |
| QuantifyBias.NameTableLastWins | quantify_bias.py:20-24 | a key maps to the first field of the last row with that key |
| QuantifyBias.GetRealNames | quantify_bias.py:17-25 | succeeds exactly when every row has a third field, else fails at the first row without one; on success the table is `NameTable` of all the rows |
| QuantifyBias.GetDissimilarLengths | quantify_bias.py:92-98 | succeeds exactly when every genome with a length also has a similar length; the result has the same genomes as the length table, each mapped to raw minus similar; a failure names a genome missing from the similarity table |
| QuantifyBias.GenomeName | quantify_bias.py:46 | the genome name of a path contains neither `/` nor `.` |
| QuantifyBias.GenomeNameOfPath | quantify_bias.py:87 | `<dir>/<stem>.<suffix>` is named `<stem>` for any directory and any suffix, dots included |

## Left out

- The command-line entry points and the JSON report (quantify_bias.py:101-116, limited_size.py:18-25): argument parsing and output writing are not modelled.
- File I/O: `open`, `glob` and standard input are not modelled. Each file is passed in as a sequence of lines. The unused `gzip` import has no counterpart.
- `get_raw_genome_lengths` and `get_similar_stretches` (quantify_bias.py:42-50, 84-89) are not modelled as loops. They fill a dictionary, one entry per globbed file. What each iteration computes is modelled: `GenomeName`, `ParseFastaLen` and `LenOfSimilarStretches`. The loops over directory listings are not.
- `float()` and `int()` are not modelled; they are the parameters `toReal` and `toInt`. Float rounding, NaN and infinities are not modelled: identity and cutoff are exact reals.
- `parseFasta` is a generator. The model collects everything it yields. A consumer that stops reading early is not modelled.
- QuantifyBias.GetDissimilarLengths: when several genomes are missing from the similarity table, the model names some missing genome. The program names the first one in dictionary iteration order, which is not modelled.
- Dictionary iteration order is not modelled anywhere else either: the tables are Dafny maps.
