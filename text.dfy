/** The few Python string operations the modelled scripts rely on:
    `str.strip()`, `str.split(sep)` with a one-character separator and the
    first word of `str.split()`. Strings are sequences of characters. */
module Text {
  import opened Wrappers

  /** The characters for which Python's `str.isspace()` holds; `strip()` and
      `split()` without arguments treat exactly these as whitespace. */
  predicate IsSpace(c: char) {
    || c == ' '
    || '\t' <= c <= '\r'
    || '\U{1c}' <= c <= '\U{1f}'
    || c == '\U{85}' || c == '\U{a0}' || c == '\U{1680}'
    || '\U{2000}' <= c <= '\U{200a}'
    || c == '\U{2028}' || c == '\U{2029}' || c == '\U{202f}' || c == '\U{205f}' || c == '\U{3000}'
  }

  /** No whitespace at either end of `s`. */
  predicate Unpadded(s: string) {
    s == [] || (!IsSpace(s[0]) && !IsSpace(s[|s| - 1]))
  }

  /** `s.strip()`: what is left of `s` once whitespace is removed from both
      ends (StripRemovesOnlySpace says what was removed). */
  function Strip(s: string): (r: string)
    ensures |r| <= |s|
    ensures Unpadded(r)
    decreases |s|
  {
    if s != [] && IsSpace(s[0]) then Strip(s[1..])
    else if s != [] && IsSpace(s[|s| - 1]) then Strip(s[..|s| - 1])
    else s
  }

  /** The number of whitespace characters at the start of `s`. */
  function LeadingSpace(s: string): (n: nat)
    ensures n <= |s|
  {
    if s != [] && IsSpace(s[0]) then 1 + LeadingSpace(s[1..]) else 0
  }

  /** `LeadingSpace` counts exactly the leading run of whitespace. */
  lemma {:induction false} LeadingSpaceRun(s: string)
    ensures forall k :: 0 <= k < LeadingSpace(s) ==> IsSpace(s[k])
    ensures LeadingSpace(s) == |s| || !IsSpace(s[LeadingSpace(s)])
    decreases |s|
  {
    if s != [] && IsSpace(s[0]) {
      LeadingSpaceRun(s[1..]);
    }
  }

  /** What `Strip` keeps is one slice of `s`, starting after its leading
      whitespace, and everything it drops on either side is whitespace. */
  predicate StripKeepsSlice(s: string) {
    var r, i := Strip(s), LeadingSpace(s);
    && i + |r| <= |s| && r == s[i..i + |r|]
    && (forall k :: 0 <= k < i ==> IsSpace(s[k]))
    && (forall k :: i + |r| <= k < |s| ==> IsSpace(s[k]))
  }

  lemma {:induction false} StripRemovesOnlySpace(s: string)
    ensures StripKeepsSlice(s)
    decreases |s|
  {
    if s != [] && IsSpace(s[0]) {
      StripRemovesOnlySpace(s[1..]);
      StripFrontStep(s);
    } else if s != [] && IsSpace(s[|s| - 1]) {
      StripRemovesOnlySpace(s[..|s| - 1]);
      StripBackStep(s);
    } else {
      assert s[0..|s|] == s;
    }
  }

  /** Dropping a leading whitespace character shifts the kept slice by one. */
  lemma StripFrontStep(s: string)
    requires s != [] && IsSpace(s[0]) && StripKeepsSlice(s[1..])
    ensures StripKeepsSlice(s)
  {
    var r, i := Strip(s[1..]), LeadingSpace(s[1..]);
    assert i + |r| <= |s| - 1;
    assert forall k :: i <= k < i + |r| ==> s[1..][k] == s[k + 1];
    assert s[1..][i..i + |r|] == s[i + 1..i + 1 + |r|];
    assert forall k :: i + |r| <= k < |s| - 1 ==> s[1..][k] == s[k + 1];
  }

  /** Dropping a trailing whitespace character leaves the kept slice where it is. */
  lemma StripBackStep(s: string)
    requires s != [] && !IsSpace(s[0]) && IsSpace(s[|s| - 1]) && StripKeepsSlice(s[..|s| - 1])
    ensures StripKeepsSlice(s)
  {
    assert LeadingSpace(s) == 0 && LeadingSpace(s[..|s| - 1]) == 0;
    var r := Strip(s[..|s| - 1]);
    assert s[..|s| - 1][0..|r|] == s[0..|r|];
  }

  lemma StripIdempotent(s: string)
    ensures Strip(Strip(s)) == Strip(s)
  {
    StripUnpadded(Strip(s));
  }

  /** A string with no whitespace at either end is left alone by `strip()`. */
  lemma StripUnpadded(s: string)
    requires Unpadded(s)
    ensures Strip(s) == s
  {
  }

  /** `strip()` removes the line end that file iteration leaves on a line. */
  lemma StripLineEnd(s: string)
    requires Unpadded(s)
    ensures Strip(s + "\n") == s
  {
    var t := s + "\n";
    if s != [] {
      assert t[0] == s[0] && t[..|t| - 1] == s;
      StripUnpadded(s);
    }
  }

  /** A line of whitespace strips to nothing. */
  lemma StripBlank(s: string)
    requires forall k :: 0 <= k < |s| ==> IsSpace(s[k])
    ensures Strip(s) == []
  {
  }

  /** `s.split(sep)`: the pieces of `s` between occurrences of `sep`; there is
      always at least one piece (SplitPieces says the rest). */
  function Split(s: string, sep: char): (r: seq<string>)
    ensures |r| >= 1
    decreases |s|
  {
    if s == [] then [""]
    else
      var rest := Split(s[1..], sep);
      if s[0] == sep then [""] + rest
      else [[s[0]] + rest[0]] + rest[1..]
  }

  /** No piece contains the separator. */
  lemma {:induction false} SplitPiecesAvoidSeparator(s: string, sep: char)
    ensures forall k :: 0 <= k < |Split(s, sep)| ==> sep !in Split(s, sep)[k]
    decreases |s|
  {
    if s != [] {
      var rest := Split(s[1..], sep);
      SplitPiecesAvoidSeparator(s[1..], sep);
      var r := Split(s, sep);
      if s[0] != sep {
        assert r[0] == [s[0]] + rest[0] && r[1..] == rest[1..];
        assert forall k :: 1 <= k < |r| ==> r[k] == rest[k];
      } else {
        assert r[0] == "" && r[1..] == rest;
      }
    }
  }

  /** Joining the pieces back with the separator gives `s` again. */
  lemma {:induction false} SplitJoin(s: string, sep: char)
    ensures Join(Split(s, sep), sep) == s
    decreases |s|
  {
    if s != [] {
      var rest := Split(s[1..], sep);
      SplitJoin(s[1..], sep);
      assert [s[0]] + s[1..] == s;
      if s[0] != sep {
        var r := Split(s, sep);
        assert r == [[s[0]] + rest[0]] + rest[1..];
        JoinCons([s[0]] + rest[0], rest[1..], sep);
        JoinCons(rest[0], rest[1..], sep);
        assert [rest[0]] + rest[1..] == rest;
      } else {
        JoinCons("", rest, sep);
      }
    }
  }

  /** `sep.join(pieces)` */
  function Join(pieces: seq<string>, sep: char): string {
    if |pieces| <= 1 then (if pieces == [] then "" else pieces[0])
    else pieces[0] + [sep] + Join(pieces[1..], sep)
  }

  lemma JoinCons(p: string, rest: seq<string>, sep: char)
    ensures rest != [] ==> Join([p] + rest, sep) == p + [sep] + Join(rest, sep)
    ensures rest == [] ==> Join([p] + rest, sep) == p
  {
    assert ([p] + rest)[1..] == rest;
  }

  /** A character absent from `s` is absent from every piece of it. */
  lemma {:induction false} SplitPiecesWithin(s: string, sep: char, c: char)
    requires c !in s
    ensures forall k :: 0 <= k < |Split(s, sep)| ==> c !in Split(s, sep)[k]
    decreases |s|
  {
    if s != [] {
      assert c != s[0];
      assert forall m :: 0 <= m < |s[1..]| ==> s[1..][m] == s[m + 1];
      SplitPiecesWithin(s[1..], sep, c);
      var rest := Split(s[1..], sep);
      var r := Split(s, sep);
      if s[0] != sep {
        assert r[0] == [s[0]] + rest[0];
        assert forall k :: 1 <= k < |r| ==> r[k] == rest[k];
      } else {
        assert r[0] == "" && r[1..] == rest;
      }
    }
  }

  /** Splitting a string that does not contain the separator gives the string itself. */
  lemma {:induction false} SplitWithoutSeparator(s: string, sep: char)
    requires sep !in s
    ensures Split(s, sep) == [s]
    decreases |s|
  {
    if s != [] {
      SplitWithoutSeparator(s[1..], sep);
      assert [s[0]] + s[1..] == s;
    }
  }

  /** A piece without the separator, followed by nothing or by the separator
      and more, is the first piece of the split. */
  lemma SplitFirstPiece(piece: string, sep: char, tail: string)
    requires sep !in piece && (tail == [] || tail[0] == sep)
    ensures Split(piece + tail, sep)[0] == piece
  {
    SplitWithoutSeparator(piece, sep);
    if tail == [] {
      assert piece + tail == piece;
    } else {
      assert piece + tail == piece + [sep] + tail[1..];
      SplitConcat(piece, sep, tail[1..]);
    }
  }

  /** Splitting at one occurrence of the separator splits the two sides independently. */
  lemma {:induction false} SplitConcat(a: string, sep: char, b: string)
    ensures Split(a + [sep] + b, sep) == Split(a, sep) + Split(b, sep)
    decreases |a|
  {
    var s := a + [sep] + b;
    if a == [] {
      assert s[0] == sep && s[1..] == b;
    } else {
      assert s[0] == a[0] && s[1..] == a[1..] + [sep] + b;
      SplitConcat(a[1..], sep, b);
      var ra, rb := Split(a[1..], sep), Split(b, sep);
      var rest := Split(s[1..], sep);
      assert rest == ra + rb;
      if a[0] != sep {
        assert rest[0] == ra[0] && rest[1..] == ra[1..] + rb;
      }
    }
  }

  /** The leading run of non-whitespace characters of `t`. */
  function TakeWord(t: string): (w: string)
    ensures |w| <= |t| && w == t[..|w|]
    ensures forall k :: 0 <= k < |w| ==> !IsSpace(w[k])
    ensures |w| == |t| || IsSpace(t[|w|])
  {
    if t == [] || IsSpace(t[0]) then [] else [t[0]] + TakeWord(t[1..])
  }

  /** `s.split()[0]`: `None` when `split()` returns an empty list (the
      program's `[0]` then raises), otherwise the first maximal run of
      non-whitespace characters (FirstWordNone, FirstWordFollowsSpace). */
  function FirstWord(s: string): Option<string>
    decreases |s|
  {
    if s == [] then None
    else if IsSpace(s[0]) then FirstWord(s[1..])
    else Some(TakeWord(s))
  }

  /** There is no first word exactly when `s` is all whitespace. */
  lemma {:induction false} FirstWordNone(s: string)
    ensures FirstWord(s).None? <==> forall k :: 0 <= k < |s| ==> IsSpace(s[k])
    decreases |s|
  {
    if s != [] && IsSpace(s[0]) {
      FirstWordNone(s[1..]);
      assert forall k :: 1 <= k < |s| ==> s[1..][k - 1] == s[k];
    }
  }

  /** The first word is non-empty, has no whitespace, follows only
      whitespace and ends at whitespace or at the end of `s`. */
  lemma {:induction false} FirstWordFollowsSpace(s: string)
    requires FirstWord(s).Some?
    ensures var w, i := FirstWord(s).value, LeadingSpace(s);
            && w != [] && (forall k :: 0 <= k < |w| ==> !IsSpace(w[k]))
            && (forall k :: 0 <= k < i ==> IsSpace(s[k]))
            && i + |w| <= |s| && s[i..i + |w|] == w
            && (i + |w| == |s| || IsSpace(s[i + |w|]))
    decreases |s|
  {
    if IsSpace(s[0]) {
      FirstWordFollowsSpace(s[1..]);
      var w, j := FirstWord(s[1..]).value, LeadingSpace(s[1..]);
      assert FirstWord(s).value == w && LeadingSpace(s) == j + 1;
      assert s[1..][j..j + |w|] == s[j + 1..j + 1 + |w|];
      if j + |w| < |s| - 1 {
        assert s[1..][j + |w|] == s[j + 1 + |w|];
      }
      assert forall k :: 1 <= k < j + 1 ==> s[1..][k - 1] == s[k];
    } else {
      var w := TakeWord(s);
      assert w[0] == s[0];
    }
  }
}
