/** Line classification shared by both scripts: after stripping, a FASTA
    line that starts with `>` is a header; any other non-blank line is
    sequence data, and only sequence lines count towards a base total. */
module FastaLines {

  predicate IsHeader(line: string) {
    line != [] && line[0] == '>'
  }

  /** How many bases a stripped line contributes: its length for a sequence
      line, nothing for a header (or for an empty line, which neither script
      ever counts). */
  function Weight(line: string): (n: nat)
    ensures n <= |line|
    ensures n == 0 <==> line == [] || IsHeader(line)
    ensures !(line == [] || IsHeader(line)) ==> n == |line|
  {
    if line == [] || line[0] == '>' then 0 else |line|
  }

  /** Total base count of a sequence of stripped lines. */
  function SeqLen(lines: seq<string>): nat {
    if lines == [] then 0 else SeqLen(lines[..|lines| - 1]) + Weight(lines[|lines| - 1])
  }

  /** The base count is additive over a split of the lines. */
  lemma {:induction false} SeqLenAppend(a: seq<string>, b: seq<string>)
    ensures SeqLen(a + b) == SeqLen(a) + SeqLen(b)
    decreases |b|
  {
    if b != [] {
      assert (a + b)[..|a + b| - 1] == a + b[..|b| - 1];
      SeqLenAppend(a, b[..|b| - 1]);
    } else {
      assert a + b == a;
    }
  }

  lemma SeqLenCons(line: string, rest: seq<string>)
    ensures SeqLen([line] + rest) == Weight(line) + SeqLen(rest)
  {
    SeqLenAppend([line], rest);
    assert [line][..0] == [];
  }

  /** A prefix never weighs more than the whole. */
  lemma SeqLenPrefix(lines: seq<string>, n: nat)
    requires n <= |lines|
    ensures SeqLen(lines[..n]) <= SeqLen(lines)
  {
    SeqLenAppend(lines[..n], lines[n..]);
    assert lines[..n] + lines[n..] == lines;
  }
}
