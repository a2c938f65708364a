/** The similar-stretch sweep of the bias quantifier, as specification
    functions: the sections kept from the alignment hits are sorted by start
    (a stable sort, as Python's `sorted` is) and swept from left to right
    into windows; the similar length is the sum of the window spans.

    The sweep opens a window at the first section. A section whose start is
    at or before the current window's end joins that window and the window's
    end becomes the section's end; this is an assignment, not a maximum, so
    a section nested inside the window shrinks it. Any other section closes
    the window and opens a new one. */
module Stretches {

  /** The query coordinates of one kept alignment hit. */
  datatype Section = Section(start: int, end: int)

  function Span(x: Section): int {
    x.end - x.start
  }

  function SumSpans(s: seq<Section>): int {
    if s == [] then 0 else SumSpans(s[..|s| - 1]) + Span(s[|s| - 1])
  }

  lemma {:induction false} SumSpansAppend(a: seq<Section>, b: seq<Section>)
    ensures SumSpans(a + b) == SumSpans(a) + SumSpans(b)
    decreases |b|
  {
    if b == [] {
      assert a + b == a;
    } else {
      assert (a + b)[..|a + b| - 1] == a + b[..|b| - 1];
      SumSpansAppend(a, b[..|b| - 1]);
    }
  }

  lemma SumSpansSnoc(s: seq<Section>, x: Section)
    ensures SumSpans(s + [x]) == SumSpans(s) + Span(x)
  {
    assert (s + [x])[..|s|] == s;
  }

  lemma SumSpansCons(x: Section, t: seq<Section>)
    ensures SumSpans([x] + t) == Span(x) + SumSpans(t)
  {
    SumSpansAppend([x], t);
    assert [x][..0] == [];
  }

  predicate Normalized(s: seq<Section>) {
    forall i :: 0 <= i < |s| ==> s[i].start <= s[i].end
  }

  /** Spans of sections with start at or before end are never negative. */
  lemma {:induction false} SumSpansNonNegative(s: seq<Section>)
    requires Normalized(s)
    ensures SumSpans(s) >= 0
    decreases |s|
  {
    if s != [] {
      SumSpansNonNegative(s[..|s| - 1]);
    }
  }

  predicate SortedByStart(s: seq<Section>) {
    forall i, j :: 0 <= i < j < |s| ==> s[i].start <= s[j].start
  }

  /** The sections of `s` that start at `k`, in their order in `s`. A sort
      is stable when it leaves every one of these subsequences as it was. */
  function OfStart(s: seq<Section>, k: int): seq<Section> {
    if s == [] then [] else (if s[0].start == k then [s[0]] else []) + OfStart(s[1..], k)
  }

  lemma OfStartCons(x: Section, t: seq<Section>, k: int)
    ensures OfStart([x] + t, k) == (if x.start == k then [x] else []) + OfStart(t, k)
  {
    assert ([x] + t)[1..] == t;
  }

  /** `x` placed in front of the first element of the sorted `t` whose start
      is not below its own, so after every element that starts earlier and
      before every element that starts at the same place or later. */
  function Insert(x: Section, t: seq<Section>): (r: seq<Section>)
    requires SortedByStart(t)
    ensures |r| == |t| + 1
    ensures forall j :: 0 <= j < |r| ==> r[j] == x || r[j] in t
    ensures SortedByStart(r)
  {
    if t == [] || x.start <= t[0].start then
      [x] + t
    else
      assert [t[0]] + t[1..] == t;
      [t[0]] + Insert(x, t[1..])
  }

  /** Inserting permutes: the result holds `x` and the elements of `t`. */
  lemma {:induction false} InsertPermutes(x: Section, t: seq<Section>)
    requires SortedByStart(t)
    ensures multiset(Insert(x, t)) == multiset([x] + t)
    decreases |t|
  {
    if !(t == [] || x.start <= t[0].start) {
      InsertPermutes(x, t[1..]);
      assert [t[0]] + t[1..] == t;
      assert [x] + t == [x, t[0]] + t[1..];
    }
  }

  /** Inserting adds the span of `x`. */
  lemma {:induction false} InsertSpans(x: Section, t: seq<Section>)
    requires SortedByStart(t)
    ensures SumSpans(Insert(x, t)) == Span(x) + SumSpans(t)
    decreases |t|
  {
    SumSpansCons(x, t);
    if !(t == [] || x.start <= t[0].start) {
      var r' := Insert(x, t[1..]);
      InsertSpans(x, t[1..]);
      assert [t[0]] + t[1..] == t;
      SumSpansCons(t[0], r');
      SumSpansCons(x, t[1..]);
      SumSpansCons(t[0], t[1..]);
    }
  }

  /** Inserting keeps the group of sections starting at `k` in order, and
      puts `x` at the front of its own group. */
  lemma {:induction false} InsertStable(x: Section, t: seq<Section>, k: int)
    requires SortedByStart(t)
    ensures OfStart(Insert(x, t), k) == OfStart([x] + t, k)
    decreases |t|
  {
    if !(t == [] || x.start <= t[0].start) {
      var r' := Insert(x, t[1..]);
      var hx := if x.start == k then [x] else [];
      var h0 := if t[0].start == k then [t[0]] else [];
      assert h0 == [] || hx == [];
      calc {
        OfStart(Insert(x, t), k);
        OfStart([t[0]] + r', k);
        { OfStartCons(t[0], r', k); }
        h0 + OfStart(r', k);
        { InsertStable(x, t[1..], k); OfStartCons(x, t[1..], k); }
        h0 + (hx + OfStart(t[1..], k));
        hx + (h0 + OfStart(t[1..], k));
        { OfStartCons(t[0], t[1..], k); assert [t[0]] + t[1..] == t; }
        hx + OfStart(t, k);
        { OfStartCons(x, t, k); }
        OfStart([x] + t, k);
      }
    }
  }

  /** `sorted(sections, key=lambda el: el[0])`: a stable sort by start. The
      result is sorted, is a permutation of the input with the same total
      span, and keeps the input order among sections with equal starts. */
  function SortByStart(s: seq<Section>): (r: seq<Section>)
    ensures SortedByStart(r)
    ensures multiset(r) == multiset(s)
    ensures SumSpans(r) == SumSpans(s)
    ensures forall k :: OfStart(r, k) == OfStart(s, k)
  {
    if s == [] then []
    else
      var t := SortByStart(s[1..]);
      assert [s[0]] + s[1..] == s;
      InsertPermutes(s[0], t);
      InsertSpans(s[0], t);
      forall k ensures OfStart(Insert(s[0], t), k) == OfStart(s, k) {
        InsertStable(s[0], t, k);
        OfStartCons(s[0], t, k);
        OfStartCons(s[0], s[1..], k);
      }
      SumSpansCons(s[0], t);
      SumSpansCons(s[0], s[1..]);
      Insert(s[0], t)
  }

  /** Sorting moves sections but does not change them. */
  lemma SortKeepsNormalized(s: seq<Section>)
    requires Normalized(s)
    ensures Normalized(SortByStart(s))
  {
    var r := SortByStart(s);
    forall i | 0 <= i < |r| ensures r[i].start <= r[i].end {
      assert r[i] in multiset(r);
      assert r[i] in s;
    }
  }

  /** Two sorted sequences that agree on every equal-start group are equal:
      a stable sort's result depends only on those groups. */
  lemma {:induction false} SortedByGroups(a: seq<Section>, b: seq<Section>)
    requires SortedByStart(a) && SortedByStart(b)
    requires forall k :: OfStart(a, k) == OfStart(b, k)
    ensures a == b
    decreases |a|
  {
    if a == [] || b == [] {
      if a != [] {
        OwnGroupNonEmpty(a);
        assert false;
      } else if b != [] {
        OwnGroupNonEmpty(b);
        assert false;
      }
    } else {
      var ka, kb := a[0].start, b[0].start;
      if ka < kb {
        NoGroupBelowFirst(b, ka);
        OwnGroupNonEmpty(a);
        assert false;
      } else if kb < ka {
        NoGroupBelowFirst(a, kb);
        OwnGroupNonEmpty(b);
        assert false;
      } else {
        assert OfStart(a, ka)[0] == a[0] && OfStart(b, ka)[0] == b[0];
        forall k ensures OfStart(a[1..], k) == OfStart(b[1..], k) {
          var h := if ka == k then [a[0]] else [];
          assert OfStart(a, k) == h + OfStart(a[1..], k);
          assert OfStart(b, k) == h + OfStart(b[1..], k);
          assert (h + OfStart(a[1..], k))[|h|..] == OfStart(a[1..], k);
          assert (h + OfStart(b[1..], k))[|h|..] == OfStart(b[1..], k);
        }
        SortedByGroups(a[1..], b[1..]);
        assert a == [a[0]] + a[1..] && b == [b[0]] + b[1..];
      }
    }
  }

  lemma OwnGroupNonEmpty(s: seq<Section>)
    ensures s != [] ==> OfStart(s, s[0].start) != []
  {
  }

  /** A sorted sequence has no section starting before its first one. */
  lemma {:induction false} NoGroupBelowFirst(s: seq<Section>, k: int)
    requires SortedByStart(s) && s != [] && k < s[0].start
    ensures OfStart(s, k) == []
    decreases |s|
  {
    if |s| > 1 {
      NoGroupBelowFirst(s[1..], k);
    }
  }

  /** Reordering the input changes nothing as long as sections with equal
      starts keep their relative order: the sort gives the same sequence. */
  lemma SortIgnoresOrderOfDistinctStarts(s1: seq<Section>, s2: seq<Section>)
    requires forall k :: OfStart(s1, k) == OfStart(s2, k)
    ensures SortByStart(s1) == SortByStart(s2)
  {
    SortedByGroups(SortByStart(s1), SortByStart(s2));
  }

  /** Sorting sections that are already in order leaves them as they are. */
  lemma SortSorted(s: seq<Section>)
    requires SortedByStart(s)
    ensures SortByStart(s) == s
  {
    SortedByGroups(SortByStart(s), s);
  }

  /** The windows the sweep forms over `s`, in the order it closes them; the
      last is the window still open when the loop ends. */
  function Windows(s: seq<Section>): (w: seq<Section>)
    ensures |w| <= |s|
    ensures w == [] <==> s == []
    decreases |s|
  {
    if s == [] then []
    else
      var w := Windows(s[..|s| - 1]);
      var x := s[|s| - 1];
      if w == [] then [x]
      else if x.start <= w[|w| - 1].end then w[..|w| - 1] + [Section(w[|w| - 1].start, x.end)]
      else w + [x]
  }

  /** One step of the sweep: how section `j` changes the windows formed
      over the sections before it. */
  lemma WindowsStep(s: seq<Section>, j: nat)
    requires 1 <= j < |s|
    ensures var w, x := Windows(s[..j]), s[j];
            && w != []
            && Windows(s[..j + 1]) == if x.start <= w[|w| - 1].end
                                     then w[..|w| - 1] + [Section(w[|w| - 1].start, x.end)]
                                     else w + [x]
  {
    assert s[..j + 1][..j] == s[..j];
  }

  /** The similar length the sweep computes over `s`: the sum of the window spans. */
  function Coverage(s: seq<Section>): int {
    SumSpans(Windows(s))
  }

  /** The sweep never reports more than the spans of the sections added up:
      a section that joins a window adds at most its own span to it. */
  lemma {:induction false} CoverageAtMostSpans(s: seq<Section>)
    ensures Coverage(s) <= SumSpans(s)
    decreases |s|
  {
    if s != [] {
      var p, x := s[..|s| - 1], s[|s| - 1];
      CoverageAtMostSpans(p);
      var w := Windows(p);
      if w == [] {
        assert [x][..0] == [];
      } else {
        var cur := w[|w| - 1];
        if x.start <= cur.end {
          var w' := w[..|w| - 1] + [Section(cur.start, x.end)];
          assert w'[..|w'| - 1] == w[..|w| - 1];
        } else {
          assert (w + [x])[..|w|] == w;
        }
      }
    }
  }

  /** Each window ends before the next one starts: touching or overlapping
      sections never end up in two windows. It is stated over each adjacent
      pair (`j == i + 1`) with both indices bound, so that `s[i]` and `s[j]`
      trigger it together and no instance creates a new `s[i + 1]` term that
      would trigger it again. */
  ghost predicate Separated(s: seq<Section>) {
    forall i, j :: 0 <= i < j < |s| && j == i + 1 ==> s[i].end < s[j].start
  }

  lemma {:induction false} WindowsSeparated(s: seq<Section>)
    ensures Separated(Windows(s))
    decreases |s|
  {
    if s != [] {
      WindowsSeparated(s[..|s| - 1]);
    }
  }

  /** Sections that are already separated are their own windows. */
  lemma {:induction false} WindowsOfSeparated(s: seq<Section>)
    requires Separated(s)
    ensures Windows(s) == s
    decreases |s|
  {
    if s != [] {
      var p := s[..|s| - 1];
      assert Separated(p);
      WindowsOfSeparated(p);
      assert p + [s[|s| - 1]] == s;
    }
  }

  /** Sweeping the windows again changes nothing. */
  lemma WindowsIdempotent(s: seq<Section>)
    ensures Windows(Windows(s)) == Windows(s)
  {
    WindowsSeparated(s);
    WindowsOfSeparated(Windows(s));
  }

  /** Over sorted sections with start at or before end, every window has its
      start at or before its end, and the open window starts no later than
      the last section. */
  lemma {:induction false} WindowsNormalized(s: seq<Section>)
    requires SortedByStart(s) && Normalized(s)
    ensures Normalized(Windows(s))
    ensures s != [] ==> Windows(s)[|Windows(s)| - 1].start <= s[|s| - 1].start
    decreases |s|
  {
    if s != [] {
      WindowsNormalized(s[..|s| - 1]);
    }
  }

  /** Every window contributes a non-negative span, so the similar length of
      sorted sections with start at or before end is never negative. */
  lemma CoverageNonNegative(s: seq<Section>)
    requires SortedByStart(s) && Normalized(s)
    ensures Coverage(s) >= 0
  {
    WindowsNormalized(s);
    SumSpansNonNegative(Windows(s));
  }

  /** One section gives its own span. */
  lemma CoverageSingle(x: Section)
    ensures Coverage([x]) == x.end - x.start
  {
    assert [x][..0] == [];
    assert Windows([x]) == [x];
    assert SumSpans([x]) == SumSpans([]) + Span(x);
  }

  /** A section that starts exactly where the window ends is merged:
      `[0,10], [10,20]` give 20. Merging touching sections loses nothing,
      so the coverage equals the sum of the spans although they touch. */
  lemma CoverageTouching()
    ensures Coverage([Section(0, 10), Section(10, 20)]) == 20
    ensures SumSpans([Section(0, 10), Section(10, 20)]) == 20
  {
    var s := [Section(0, 10), Section(10, 20)];
    assert s[..1] == [Section(0, 10)] && s[..1][..0] == [];
    assert Windows(s[..1]) == [Section(0, 10)];
    assert [Section(0, 10)][..0] == [];
    assert Windows(s) == [Section(0, 20)];
    CoverageSingle(Section(0, 20));
  }

  /** A gap of one closes the window: `[0,10], [11,20]` give 10 + 9. */
  lemma CoverageGap()
    ensures Coverage([Section(0, 10), Section(11, 20)]) == 19
  {
    var s := [Section(0, 10), Section(11, 20)];
    assert s[..1] == [Section(0, 10)] && s[..1][..0] == [];
    var w := Windows(s);
    assert w == [Section(0, 10), Section(11, 20)];
    assert w[..1] == [Section(0, 10)] && w[..1][..0] == [];
    CoverageSingle(Section(0, 10));
  }

  /** A section nested in the window shrinks it to the nested end:
      `[0,100], [10,20]` give 20, not 100. */
  lemma CoverageNestedShrinks()
    ensures Coverage([Section(0, 100), Section(10, 20)]) == 20
  {
    var s := [Section(0, 100), Section(10, 20)];
    assert s[..1] == [Section(0, 100)] && s[..1][..0] == [];
    assert Windows(s[..1]) == [Section(0, 100)];
    assert [Section(0, 100)][..0] == [];
    assert Windows(s) == [Section(0, 20)];
    CoverageSingle(Section(0, 20));
  }

  /** A duplicated section counts once: `[10,20], [10,20]` give 10. */
  lemma CoverageDuplicate()
    ensures Coverage([Section(10, 20), Section(10, 20)]) == 10
  {
    var s := [Section(10, 20), Section(10, 20)];
    assert s[..1] == [Section(10, 20)] && s[..1][..0] == [];
    assert Windows(s[..1]) == [Section(10, 20)];
    assert [Section(10, 20)][..0] == [];
    assert Windows(s) == [Section(10, 20)];
    CoverageSingle(Section(10, 20));
  }

  /** Because the window end is assigned rather than maximised, the order of
      sections with equal starts matters, and the stable sort keeps the input
      order: `[0,100], [0,10]` give 10 ... */
  lemma CoverageDependsOnTieOrder()
    ensures Coverage(SortByStart([Section(0, 100), Section(0, 10)])) == 10
  {
    var a, b := Section(0, 100), Section(0, 10);
    assert [a, b][1..] == [b] && [b][1..] == [];
    assert SortByStart([b]) == [b];
    assert SortByStart([a, b]) == [a, b];
    assert [a, b][..1] == [a] && [a][..0] == [];
    assert Windows([a]) == [a];
    assert Windows([a, b]) == [Section(0, 10)];
    CoverageSingle(Section(0, 10));
  }

  /** ... while `[0,10], [0,100]` give 100. */
  lemma CoverageDependsOnTieOrderReversed()
    ensures Coverage(SortByStart([Section(0, 10), Section(0, 100)])) == 100
  {
    var a, b := Section(0, 100), Section(0, 10);
    assert [b, a][1..] == [a] && [a][1..] == [];
    assert SortByStart([a]) == [a];
    assert SortByStart([b, a]) == [b, a];
    assert [b, a][..1] == [b] && [b][..0] == [];
    assert Windows([b]) == [b];
    assert Windows([b, a]) == [Section(0, 100)];
    CoverageSingle(Section(0, 100));
  }
}
