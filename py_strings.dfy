/**
 * Models of the Python string built-ins that the password extractor relies on:
 * `str.split()`, `str.split("\n")`, `re.split(r"\W+", ...)`, `str.strip(chars)`
 * and `str.lower()`, together with the character classes behind them.
 *
 * Strings are sequences of Unicode scalar values, unlike Python's `str`,
 * which may also hold lone surrogates.
 */
module PyStrings {

  /** The characters Python's `str.isspace()` accepts; `str.split()` and
      `str.strip()` with no argument separate and trim on exactly these. */
  const Whitespace: string :=
    "\t\n\U{B}\U{C}\r\U{1C}\U{1D}\U{1E}\U{1F} \U{85}\U{A0}\U{1680}"
    + "\U{2000}\U{2001}\U{2002}\U{2003}\U{2004}\U{2005}\U{2006}\U{2007}\U{2008}\U{2009}\U{200A}"
    + "\U{2028}\U{2029}\U{202F}\U{205F}\U{3000}"

  predicate IsSpace(c: char) {
    c in Whitespace
  }

  /** A character the `re` pattern `\w` matches: letters, digits and `_`.
      Exact up to U+00FF; above that, every non-whitespace character. */
  predicate IsWordChar(c: char) {
    || 'a' <= c <= 'z' || 'A' <= c <= 'Z' || '0' <= c <= '9' || c == '_'
    || c in "\U{AA}\U{B2}\U{B3}\U{B5}\U{B9}\U{BA}\U{BC}\U{BD}\U{BE}"
    || ('\U{C0}' <= c <= '\U{FF}' && c != '\U{D7}' && c != '\U{F7}')
    || ('\U{100}' <= c && !IsSpace(c))
  }

  /** `str.lower()` on one character: the ASCII and Latin-1 capitals, the
      unaccented Greek capitals and the Cyrillic capitals U+0400 to U+042F
      map to their small letters; everything else is unchanged. The ASCII
      small letters come exactly from the ASCII letters, and no character
      crosses the ASCII boundary. */
  function Lower(c: char): (r: char)
    ensures 'a' <= r <= 'z' <==> 'a' <= c <= 'z' || 'A' <= c <= 'Z'
    ensures c < '\U{80}' <==> r < '\U{80}'
  {
    if || 'A' <= c <= 'Z'
       || ('\U{C0}' <= c <= '\U{DE}' && c != '\U{D7}')
       || ('\U{391}' <= c <= '\U{3AB}' && c != '\U{3A2}')
       || '\U{410}' <= c <= '\U{42F}'
    then (c as int + 32) as char
    else if '\U{400}' <= c <= '\U{40F}' then (c as int + 80) as char
    else c
  }

  /** Lowering twice is lowering once. */
  lemma LowerIdempotent(c: char)
    ensures Lower(Lower(c)) == Lower(c)
  {
  }

  /** `s.lower()`: as long as `s`, in lower case, and equal to `s` up to
      case. */
  function LowerStr(s: string): (r: string)
    ensures |r| == |s|
    ensures forall k :: 0 <= k < |r| ==> Lower(r[k]) == r[k] && Lower(s[k]) == r[k]
  {
    seq(|s|, k requires 0 <= k < |s| => Lower(s[k]))
  }

  /** `needle` occurs in `hay` starting at index `i`. */
  predicate OccursAt(hay: string, needle: string, i: int) {
    0 <= i <= |hay| - |needle| && hay[i..i + |needle|] == needle
  }

  /** `needle in hay`: `needle` occurs as a contiguous substring of `hay`.
      The empty string is in every string, and nothing longer than `hay`
      is in it. */
  predicate Contains(hay: string, needle: string): (b: bool)
    ensures needle == [] ==> b
    ensures b ==> |needle| <= |hay|
  {
    assert needle == [] ==> OccursAt(hay, needle, 0);
    exists i | 0 <= i <= |hay| - |needle| :: OccursAt(hay, needle, i)
  }

  lemma ContainsSlice(s: string, i: int, j: int)
    requires 0 <= i <= j <= |s|
    ensures Contains(s, s[i..j])
  {
    assert OccursAt(s, s[i..j], i);
  }

  lemma {:induction false} ContainsTransitive(a: string, b: string, c: string)
    requires Contains(a, b) && Contains(b, c)
    ensures Contains(a, c)
  {
    var i :| 0 <= i <= |a| - |b| && OccursAt(a, b, i);
    var j :| 0 <= j <= |b| - |c| && OccursAt(b, c, j);
    forall k | 0 <= k < |c| ensures a[i + j + k] == c[k] {
      assert c[k] == b[j..j + |c|][k] == b[j + k];
      assert b[j + k] == a[i..i + |b|][j + k];
    }
    assert a[i + j..i + j + |c|] == c;
    assert OccursAt(a, c, i + j);
  }

  // ---------------------------------------------------------------------
  // Splitting

  /** The two separator classes the extractor splits on in runs. */
  datatype Separator = Space | NonWord

  predicate IsSeparator(c: char, sep: Separator) {
    match sep
    case Space => IsSpace(c)
    case NonWord => !IsWordChar(c)
  }

  /** No character of `s` belongs to `sep`. */
  predicate Free(s: string, sep: Separator) {
    forall j :: 0 <= j < |s| ==> !IsSeparator(s[j], sep)
  }

  /** The characters of `s` that are not separators, in order. */
  function Remove(s: string, sep: Separator): string {
    if s == [] then []
    else (if IsSeparator(s[0], sep) then [] else [s[0]]) + Remove(s[1..], sep)
  }

  /** `"".join(pieces)` */
  function Concat(pieces: seq<string>): string {
    if pieces == [] then [] else pieces[0] + Concat(pieces[1..])
  }

  /** `sep.join(pieces)` for a one-character separator. */
  function Join(pieces: seq<string>, d: char): string {
    if pieces == [] then []
    else if |pieces| == 1 then pieces[0]
    else pieces[0] + [d] + Join(pieces[1..], d)
  }

  /** Every character of `s` belongs to `sep`. */
  predicate AllSeparators(s: string, sep: Separator) {
    forall j :: 0 <= j < |s| ==> IsSeparator(s[j], sep)
  }

  /** `pieces[0] + gaps[0] + pieces[1] + ... + pieces[n]`: the pieces put
      back together with the gaps between them. */
  function Interleave(pieces: seq<string>, gaps: seq<string>): string
    requires |gaps| + 1 == |pieces|
    decreases |gaps|
  {
    if gaps == [] then pieces[0]
    else pieces[0] + gaps[0] + Interleave(pieces[1..], gaps[1..])
  }

  function Last(pieces: seq<string>): string
    requires pieces != []
  {
    pieces[|pieces| - 1]
  }

  /** Splitting on every maximal run of separator characters, as
      `re.split(r"\W+", s)` does for `NonWord`: the pieces hold no separator,
      and a leading run yields an empty first piece (`SplitRunsInterior` and
      `SplitRunsTrailing` give the interior pieces and the trailing run). */
  function SplitRuns(s: string, sep: Separator): (r: seq<string>)
    ensures |r| >= 1
    ensures forall k :: 0 <= k < |r| ==> Free(r[k], sep)
    ensures s != [] && IsSeparator(s[0], sep) ==> |r| >= 2 && r[0] == []
    decreases |s|
  {
    if s == [] then [[]]
    else
      var rest := SplitRuns(s[1..], sep);
      assert s[1..] != [] ==> s[1..][0] == s[1];
      if !IsSeparator(s[0], sep) then
        var r := [[s[0]] + rest[0]] + rest[1..];
        assert forall k :: 0 < k < |r| ==> r[k] == rest[k];
        r
      else if |s| > 1 && IsSeparator(s[1], sep) then rest
      else [[]] + rest
  }

  /** The maximal runs of separator characters in `s`, in order: the cuts
      `SplitRuns` makes, one fewer than its pieces. */
  function Runs(s: string, sep: Separator): (g: seq<string>)
    ensures |g| + 1 == |SplitRuns(s, sep)|
    ensures forall k :: 0 <= k < |g| ==> g[k] != [] && AllSeparators(g[k], sep)
    decreases |s|
  {
    if s == [] then []
    else
      var rest := Runs(s[1..], sep);
      if !IsSeparator(s[0], sep) then rest
      else if |s| > 1 && IsSeparator(s[1], sep) then [[s[0]] + rest[0]] + rest[1..]
      else [[s[0]]] + rest
  }

  /** `re.split(r"\W+", s)`: pieces of word characters only, which give `s`
      back when put together with the maximal non-word runs between them. */
  function SplitNonWord(s: string): (r: seq<string>)
    ensures forall k, j :: 0 <= k < |r| && 0 <= j < |r[k]| ==> IsWordChar(r[k][j])
    ensures |Runs(s, NonWord)| + 1 == |r| && Interleave(r, Runs(s, NonWord)) == s
  {
    InterleaveSplitRuns(s, NonWord);
    SplitRuns(s, NonWord)
  }

  /** The non-empty elements of `pieces`, in order. */
  function DropEmpty(pieces: seq<string>): (r: seq<string>)
    ensures forall k :: 0 <= k < |r| ==> r[k] != [] && r[k] in pieces
    ensures forall x :: x in pieces && x != [] ==> x in r
  {
    if pieces == [] then []
    else (if pieces[0] == [] then [] else [pieces[0]]) + DropEmpty(pieces[1..])
  }

  /** `s.split()`: the whitespace-separated tokens, never empty and never
      holding whitespace. */
  function SplitWhitespace(s: string): (r: seq<string>)
    ensures forall k :: 0 <= k < |r| ==> r[k] != [] && Free(r[k], Space)
  {
    DropEmpty(SplitRuns(s, Space))
  }

  /** `s.split(d)` for a one-character `d`: splits at every occurrence, so
      consecutive, leading or trailing occurrences yield empty pieces. */
  function SplitOn(s: string, d: char): (r: seq<string>)
    ensures |r| >= 1
    ensures forall k :: 0 <= k < |r| ==> d !in r[k]
    decreases |s|
  {
    if s == [] then [[]]
    else
      var rest := SplitOn(s[1..], d);
      if s[0] == d then [[]] + rest else [[s[0]] + rest[0]] + rest[1..]
  }

  /** `s.split("\n")`: lines without a line break, which give `s` back when
      joined with `"\n"`. */
  function SplitLines(s: string): (r: seq<string>)
    ensures forall k :: 0 <= k < |r| ==> '\n' !in r[k]
    ensures Join(r, '\n') == s
  {
    JoinSplitOn(s, '\n');
    SplitOn(s, '\n')
  }

  // ---------------------------------------------------------------------
  // Stripping

  /** `s.lstrip(chars)`: the suffix of `s` left after dropping the longest
      prefix made only of characters in `chars`. */
  function LStrip(s: string, chars: string): (r: string)
    ensures |r| <= |s| && r == s[|s| - |r|..]
    ensures r == [] || r[0] !in chars
    ensures forall k :: 0 <= k < |s| - |r| ==> s[k] in chars
    decreases |s|
  {
    if s != [] && s[0] in chars then LStrip(s[1..], chars) else s
  }

  /** `s.rstrip(chars)`: the prefix of `s` left after dropping the longest
      suffix made only of characters in `chars`. */
  function RStrip(s: string, chars: string): (r: string)
    ensures |r| <= |s| && r == s[..|r|]
    ensures r == [] || r[|r| - 1] !in chars
    ensures forall k :: |r| <= k < |s| ==> s[k] in chars
    decreases |s|
  {
    if s != [] && s[|s| - 1] in chars then RStrip(s[..|s| - 1], chars) else s
  }

  /** `r` occurs in `s` at `i`, and every character of `s` outside that
      occurrence is in `chars`. */
  predicate TrimmedAt(s: string, chars: string, r: string, i: int) {
    && OccursAt(s, r, i)
    && (forall k :: 0 <= k < i ==> s[k] in chars)
    && (forall k :: i + |r| <= k < |s| ==> s[k] in chars)
  }

  /** `s.strip(chars)`: `chars` is a set of characters, not a prefix or a
      suffix. The result is a slice of `s` whose ends are not in `chars`, and
      everything cut off on either side is in `chars`. */
  function StripChars(s: string, chars: string): (r: string)
    ensures r == [] || (r[0] !in chars && r[|r| - 1] !in chars)
    ensures exists i :: TrimmedAt(s, chars, r, i)
  {
    var left := LStrip(s, chars);
    var r := RStrip(left, chars);
    StripTrimmed(s, chars, left, r);
    r
  }

  /** A suffix of `s` cut from the left, then a prefix of that cut from the
      right, each time only characters in `chars`: what remains is trimmed
      out of `s` at the length of the left cut. */
  lemma StripTrimmed(s: string, chars: string, left: string, r: string)
    requires |left| <= |s| && left == s[|s| - |left|..]
    requires forall k :: 0 <= k < |s| - |left| ==> s[k] in chars
    requires left == [] || left[0] !in chars
    requires |r| <= |left| && r == left[..|r|]
    requires forall k :: |r| <= k < |left| ==> left[k] in chars
    ensures r == [] || r[0] !in chars
    ensures TrimmedAt(s, chars, r, |s| - |left|)
  {
    var i := |s| - |left|;
    forall j | 0 <= j < |left| ensures s[i + j] == left[j] {
      assert left[j] == s[i..][j];
    }
    forall j | 0 <= j < |r| ensures r[j] == left[j] {
      assert r[j] == left[..|r|][j];
    }
    assert s[i..i + |r|] == r;
    forall k | i + |r| <= k < |s| ensures s[k] in chars {
      assert s[k] == left[k - i];
    }
  }

  /** `s.strip()`: a substring of `s` that neither starts nor ends with
      whitespace, and `s` itself when `s` does not. */
  function Strip(s: string): (r: string)
    ensures r == [] || (r[0] !in Whitespace && r[|r| - 1] !in Whitespace)
    ensures Contains(s, r)
    ensures s == [] || (s[0] !in Whitespace && s[|s| - 1] !in Whitespace) ==> r == s
  {
    StripCharsFacts(s, Whitespace);
    StripChars(s, Whitespace)
  }

  // ---------------------------------------------------------------------
  // Properties of the splits

  /** Everything a slice of `s[1..]` holds, `s` holds too. */
  lemma ContainsInTail(s: string, x: string)
    requires s != [] && Contains(s[1..], x)
    ensures Contains(s, x)
  {
    ContainsSlice(s, 1, |s|);
    assert s[1..|s|] == s[1..];
    ContainsTransitive(s, s[1..], x);
  }

  /** Joining the pieces of `s.split(d)` with `d` gives back `s`. */
  lemma {:induction false} JoinSplitOn(s: string, d: char)
    ensures Join(SplitOn(s, d), d) == s
    decreases |s|
  {
    if s != [] {
      var rest := SplitOn(s[1..], d);
      JoinSplitOn(s[1..], d);
      var r := SplitOn(s, d);
      if s[0] == d {
        assert r[1..] == rest;
      } else if |rest| > 1 {
        assert r[1..] == rest[1..];
        assert Join(rest, d) == rest[0] + [d] + Join(rest[1..], d);
      }
    }
  }

  /** A prefix free of `d` becomes the head of the first piece. */
  lemma {:induction false} SplitOnFreePrefix(x: string, y: string, d: char)
    requires d !in x
    ensures SplitOn(x + y, d) == [x + SplitOn(y, d)[0]] + SplitOn(y, d)[1..]
    decreases |x|
  {
    var r := SplitOn(y, d);
    if x != [] {
      assert (x + y)[1..] == x[1..] + y;
      SplitOnFreePrefix(x[1..], y, d);
      var rest := SplitOn(x[1..] + y, d);
      assert (x + y)[0] == x[0] != d;
      assert SplitOn(x + y, d) == [[x[0]] + rest[0]] + rest[1..];
      assert [x[0]] + (x[1..] + r[0]) == x + r[0];
    } else {
      assert x + y == y && x + r[0] == r[0];
      assert [r[0]] + r[1..] == r;
    }
  }

  /** Splitting a join of pieces free of `d` gives back the pieces. */
  lemma {:induction false} SplitOnJoin(pieces: seq<string>, d: char)
    requires |pieces| >= 1
    requires forall k :: 0 <= k < |pieces| ==> d !in pieces[k]
    ensures SplitOn(Join(pieces, d), d) == pieces
    decreases |pieces|
  {
    if |pieces| == 1 {
      SplitOnFreePrefix(pieces[0], [], d);
      assert pieces[0] + [] == pieces[0];
      assert SplitOn([], d) == [[]];
      assert [pieces[0]] == pieces;
    } else {
      var tail := Join(pieces[1..], d);
      SplitOnJoin(pieces[1..], d);
      assert pieces[0] + [d] + tail == pieces[0] + ([d] + tail);
      assert ([d] + tail)[1..] == tail;
      assert SplitOn([d] + tail, d) == [[]] + pieces[1..];
      SplitOnFreePrefix(pieces[0], [d] + tail, d);
      assert pieces[0] + [] == pieces[0];
      assert [pieces[0]] + pieces[1..] == pieces;
    }
  }

  /** Every piece of `s.split(d)` is a substring of `s`, the first a prefix. */
  lemma {:induction false} SplitOnSubstrings(s: string, d: char)
    ensures |SplitOn(s, d)[0]| <= |s| && SplitOn(s, d)[0] == s[..|SplitOn(s, d)[0]|]
    ensures forall x :: x in SplitOn(s, d) ==> Contains(s, x)
    decreases |s|
  {
    var r := SplitOn(s, d);
    if s == [] {
      ContainsSlice(s, 0, 0);
    } else {
      var rest := SplitOn(s[1..], d);
      SplitOnSubstrings(s[1..], d);
      if s[0] != d {
        assert r[0] == [s[0]] + rest[0] == s[..|r[0]|];
      }
      assert forall y :: y in r[1..] ==> y in rest;
      forall x | x in r ensures Contains(s, x) {
        if x in rest {
          ContainsInTail(s, x);
        } else {
          assert r == [r[0]] + r[1..];
          assert x == r[0];
          ContainsSlice(s, 0, |r[0]|);
        }
      }
    }
  }

  /** `re.split` on runs loses exactly the separator characters. */
  lemma {:induction false} ConcatSplitRuns(s: string, sep: Separator)
    ensures Concat(SplitRuns(s, sep)) == Remove(s, sep)
    decreases |s|
  {
    if s != [] {
      var rest := SplitRuns(s[1..], sep);
      ConcatSplitRuns(s[1..], sep);
      var r := SplitRuns(s, sep);
      var tail := Concat(rest[1..]);
      assert Concat(rest) == rest[0] + tail;
      if !IsSeparator(s[0], sep) {
        assert r[0] == [s[0]] + rest[0] && r[1..] == rest[1..];
        assert Concat(r) == [s[0]] + rest[0] + tail;
        AppendAssoc([s[0]], rest[0], tail);
      } else if !(|s| > 1 && IsSeparator(s[1], sep)) {
        assert r[1..] == rest;
      }
    }
  }

  /** Every piece of a run split is a substring of `s`, the first a prefix. */
  lemma {:induction false} SplitRunsSubstrings(s: string, sep: Separator)
    ensures |SplitRuns(s, sep)[0]| <= |s| && SplitRuns(s, sep)[0] == s[..|SplitRuns(s, sep)[0]|]
    ensures forall x :: x in SplitRuns(s, sep) ==> Contains(s, x)
    decreases |s|
  {
    var r := SplitRuns(s, sep);
    if s == [] {
      ContainsSlice(s, 0, 0);
    } else {
      var rest := SplitRuns(s[1..], sep);
      SplitRunsSubstrings(s[1..], sep);
      if !IsSeparator(s[0], sep) {
        assert r[0] == [s[0]] + rest[0] == s[..|r[0]|];
        assert r[1..] == rest[1..];
      } else if !(|s| > 1 && IsSeparator(s[1], sep)) {
        assert r[1..] == rest;
      }
      assert forall y :: y in r[1..] ==> y in rest;
      forall x | x in r ensures Contains(s, x) {
        if x in rest {
          ContainsInTail(s, x);
        } else {
          assert r == [r[0]] + r[1..];
          assert x == r[0];
          ContainsSlice(s, 0, |r[0]|);
        }
      }
    }
  }

  /** Dropping empty pieces does not change their concatenation. */
  lemma {:induction false} ConcatDropEmpty(pieces: seq<string>)
    ensures Concat(DropEmpty(pieces)) == Concat(pieces)
    decreases |pieces|
  {
    if pieces != [] {
      ConcatDropEmpty(pieces[1..]);
      var tail := DropEmpty(pieces[1..]);
      if pieces[0] != [] {
        assert ([pieces[0]] + tail)[1..] == tail;
      } else {
        assert DropEmpty(pieces) == tail;
      }
    }
  }

  /** The tokens of `s.split()` are `s` with its whitespace taken out. */
  lemma ConcatSplitWhitespace(s: string)
    ensures Concat(SplitWhitespace(s)) == Remove(s, Space)
  {
    ConcatDropEmpty(SplitRuns(s, Space));
    ConcatSplitRuns(s, Space);
  }

  /** Every token of `s.split()` is a substring of `s`. */
  lemma SplitWhitespaceSubstrings(s: string)
    ensures forall x :: x in SplitWhitespace(s) ==> Contains(s, x)
  {
    SplitRunsSubstrings(s, Space);
  }

  /** Only the first and the last piece of a run split can be empty: two
      separator runs are never adjacent, since each is maximal. */
  lemma {:induction false} SplitRunsInterior(s: string, sep: Separator)
    ensures InteriorNonEmpty(SplitRuns(s, sep))
    decreases |s|
  {
    if s != [] {
      var rest := SplitRuns(s[1..], sep);
      SplitRunsInterior(s[1..], sep);
      var r := SplitRuns(s, sep);
      if !IsSeparator(s[0], sep) {
        assert forall k :: 0 < k < |r| ==> r[k] == rest[k];
      } else if !(|s| > 1 && IsSeparator(s[1], sep)) {
        assert forall k :: 0 < k < |r| ==> r[k] == rest[k - 1];
        if |s| > 1 {
          assert s[1..][0] == s[1];
          assert rest[0] != [];
        }
      }
    }
  }

  /** A trailing separator run yields an empty last piece: a non-empty last
      piece would end the text with a character that is not a separator. */
  lemma SplitRunsTrailing(s: string, sep: Separator)
    requires s != [] && IsSeparator(s[|s| - 1], sep)
    ensures |SplitRuns(s, sep)| >= 2 && Last(SplitRuns(s, sep)) == []
  {
    var r, g := SplitRuns(s, sep), Runs(s, sep);
    InterleaveSplitRuns(s, sep);
    InterleaveEnd(r, g);
    assert Free(Last(r), sep);
  }

  /** Interleaving ends with the end of the last piece. */
  lemma {:induction false} InterleaveEnd(pieces: seq<string>, gaps: seq<string>)
    requires |gaps| + 1 == |pieces|
    ensures gaps == [] ==> Interleave(pieces, gaps) == Last(pieces)
    ensures Last(pieces) != [] ==>
      var t := Interleave(pieces, gaps);
      t != [] && t[|t| - 1] == Last(pieces)[|Last(pieces)| - 1]
    decreases |gaps|
  {
    if gaps != [] {
      InterleaveEnd(pieces[1..], gaps[1..]);
      assert Last(pieces[1..]) == Last(pieces);
    }
  }

  lemma AppendAssoc(a: string, b: string, c: string)
    ensures a + (b + c) == a + b + c
  {
  }

  /** A character added to the front of the first piece. */
  lemma InterleaveConsPiece(c: char, pieces: seq<string>, gaps: seq<string>)
    requires |gaps| + 1 == |pieces|
    ensures Interleave([[c] + pieces[0]] + pieces[1..], gaps) == [c] + Interleave(pieces, gaps)
  {
    var r := [[c] + pieces[0]] + pieces[1..];
    assert r[0] == [c] + pieces[0] && r[1..] == pieces[1..];
    if gaps != [] {
      var tail := Interleave(pieces[1..], gaps[1..]);
      calc {
        Interleave(r, gaps);
        [c] + pieces[0] + gaps[0] + tail;
        { AppendAssoc([c], pieces[0], gaps[0]); }
        [c] + (pieces[0] + gaps[0]) + tail;
        { AppendAssoc([c], pieces[0] + gaps[0], tail); }
        [c] + (pieces[0] + gaps[0] + tail);
        [c] + Interleave(pieces, gaps);
      }
    }
  }

  /** A character added to the front of the first gap, after an empty
      first piece. */
  lemma InterleaveConsGap(c: char, pieces: seq<string>, gaps: seq<string>)
    requires |gaps| + 1 == |pieces| && gaps != [] && pieces[0] == []
    ensures Interleave(pieces, [[c] + gaps[0]] + gaps[1..]) == [c] + Interleave(pieces, gaps)
  {
    var g := [[c] + gaps[0]] + gaps[1..];
    var tail := Interleave(pieces[1..], gaps[1..]);
    assert g[0] == [c] + gaps[0] && g[1..] == gaps[1..];
    calc {
      Interleave(pieces, g);
      [] + ([c] + gaps[0]) + tail;
      { assert [] + ([c] + gaps[0]) == [c] + ([] + gaps[0]); }
      [c] + ([] + gaps[0]) + tail;
      { AppendAssoc([c], [] + gaps[0], tail); }
      [c] + ([] + gaps[0] + tail);
      [c] + Interleave(pieces, gaps);
    }
  }

  /** A new one-character gap after a new empty first piece. */
  lemma InterleaveNewGap(c: char, pieces: seq<string>, gaps: seq<string>)
    requires |gaps| + 1 == |pieces|
    ensures Interleave([[]] + pieces, [[c]] + gaps) == [c] + Interleave(pieces, gaps)
  {
    var r, g := [[]] + pieces, [[c]] + gaps;
    assert r[0] == [] && r[1..] == pieces;
    assert g[0] == [c] && g[1..] == gaps;
    assert [] + [c] == [c];
  }

  /** The pieces of a run split, put back together with the separator runs
      between them, give `s` back: the cuts fall exactly at the runs. */
  lemma {:induction false} InterleaveSplitRuns(s: string, sep: Separator)
    ensures Interleave(SplitRuns(s, sep), Runs(s, sep)) == s
    decreases |s|
  {
    if s != [] {
      var rest, gaps := SplitRuns(s[1..], sep), Runs(s[1..], sep);
      InterleaveSplitRuns(s[1..], sep);
      assert s == [s[0]] + s[1..];
      if !IsSeparator(s[0], sep) {
        InterleaveConsPiece(s[0], rest, gaps);
      } else if |s| > 1 && IsSeparator(s[1], sep) {
        assert s[1..][0] == s[1];
        InterleaveConsGap(s[0], rest, gaps);
      } else {
        InterleaveNewGap(s[0], rest, gaps);
      }
    }
  }

  /** Interleaving, seen from the last piece. */
  lemma {:induction false} InterleaveLast(pieces: seq<string>, gaps: seq<string>)
    requires |gaps| + 1 == |pieces| && gaps != []
    ensures Interleave(pieces, gaps)
      == Interleave(pieces[..|pieces| - 1], gaps[..|gaps| - 1]) + gaps[|gaps| - 1] + pieces[|pieces| - 1]
    decreases |gaps|
  {
    var n, m := |pieces|, |gaps|;
    var front, gl, pl := pieces[..n - 1], gaps[m - 1], pieces[n - 1];
    if m == 1 {
      assert Interleave(pieces[1..], gaps[1..]) == pl;
      assert Interleave(front, gaps[..0]) == pieces[0];
    } else {
      var mid := Interleave(pieces[1..][..n - 2], gaps[1..][..m - 2]);
      InterleaveLast(pieces[1..], gaps[1..]);
      assert pieces[1..][..n - 2] == front[1..];
      assert gaps[1..][..m - 2] == gaps[..m - 1][1..];
      assert Interleave(front, gaps[..m - 1]) == pieces[0] + gaps[0] + mid;
      calc {
        Interleave(pieces, gaps);
        pieces[0] + gaps[0] + (mid + gl + pl);
        { AppendAssoc(pieces[0] + gaps[0], mid + gl, pl); }
        pieces[0] + gaps[0] + (mid + gl) + pl;
        { AppendAssoc(pieces[0] + gaps[0], mid, gl); }
        pieces[0] + gaps[0] + mid + gl + pl;
      }
    }
  }

  lemma {:induction false} DropEmptyAppend(a: seq<string>, b: seq<string>)
    ensures DropEmpty(a + b) == DropEmpty(a) + DropEmpty(b)
    decreases |a|
  {
    if a != [] {
      DropEmptyAppend(a[1..], b);
      assert (a + b)[1..] == a[1..] + b;
    } else {
      assert a + b == b;
    }
  }

  lemma {:induction false} DropEmptyNonEmpty(pieces: seq<string>)
    requires forall k :: 0 <= k < |pieces| ==> pieces[k] != []
    ensures DropEmpty(pieces) == pieces
    decreases |pieces|
  {
    if pieces != [] {
      DropEmptyNonEmpty(pieces[1..]);
    }
  }

  /** The gaps are non-empty runs of separators. */
  ghost predicate SeparatorRuns(gaps: seq<string>, sep: Separator) {
    forall k :: 0 <= k < |gaps| ==> gaps[k] != [] && AllSeparators(gaps[k], sep)
  }

  /** Only the first and the last piece may be empty. */
  ghost predicate InteriorNonEmpty(pieces: seq<string>) {
    forall k :: 0 < k < |pieces| - 1 ==> pieces[k] != []
  }

  /** An empty first piece and the run after it, taken off the front. */
  lemma TrimFront(pieces: seq<string>, gaps: seq<string>, sep: Separator)
    returns (lead: string, pieces': seq<string>, gaps': seq<string>)
    requires |gaps| + 1 == |pieces| && InteriorNonEmpty(pieces) && SeparatorRuns(gaps, sep)
    ensures |gaps'| + 1 == |pieces'| && InteriorNonEmpty(pieces') && SeparatorRuns(gaps', sep)
    ensures |pieces'| >= 2 ==> pieces'[0] != []
    ensures AllSeparators(lead, sep)
    ensures Interleave(pieces, gaps) == lead + Interleave(pieces', gaps')
    ensures DropEmpty(pieces) == DropEmpty(pieces')
  {
    if |pieces| >= 2 && pieces[0] == [] {
      lead, pieces', gaps' := gaps[0], pieces[1..], gaps[1..];
      assert pieces == [[]] + pieces';
      DropEmptyAppend([[]], pieces');
      assert forall k :: 0 < k < |pieces'| - 1 ==> pieces'[k] == pieces[k + 1];
    } else {
      lead, pieces', gaps' := [], pieces, gaps;
    }
  }

  /** An empty last piece and the run before it, taken off the back. */
  lemma TrimBack(pieces: seq<string>, gaps: seq<string>, sep: Separator)
    returns (pieces': seq<string>, gaps': seq<string>, trail: string)
    requires |gaps| + 1 == |pieces| && InteriorNonEmpty(pieces) && SeparatorRuns(gaps, sep)
    requires |pieces| >= 2 ==> pieces[0] != []
    ensures |gaps'| + 1 == |pieces'| && SeparatorRuns(gaps', sep)
    ensures pieces' == [[]] || forall k :: 0 <= k < |pieces'| ==> pieces'[k] != []
    ensures AllSeparators(trail, sep)
    ensures Interleave(pieces, gaps) == Interleave(pieces', gaps') + trail
    ensures DropEmpty(pieces) == DropEmpty(pieces')
  {
    var n := |pieces|;
    if n >= 2 && pieces[n - 1] == [] {
      pieces', gaps', trail := pieces[..n - 1], gaps[..n - 2], gaps[n - 2];
      InterleaveLast(pieces, gaps);
      assert pieces == pieces' + [[]];
      DropEmptyAppend(pieces', [[]]);
      assert forall k :: 0 <= k < |pieces'| ==> pieces'[k] == pieces[k];
    } else {
      pieces', gaps', trail := pieces, gaps, [];
      assert Interleave(pieces, gaps) + [] == Interleave(pieces, gaps);
    }
  }

  /** Empty end pieces taken off, with the runs next to them. */
  lemma TrimEnds(pieces: seq<string>, gaps: seq<string>, sep: Separator)
    returns (lead: string, gaps': seq<string>, trail: string)
    requires |gaps| + 1 == |pieces| && InteriorNonEmpty(pieces) && SeparatorRuns(gaps, sep)
    ensures AllSeparators(lead, sep) && AllSeparators(trail, sep) && SeparatorRuns(gaps', sep)
    ensures DropEmpty(pieces) == [] ==> Interleave(pieces, gaps) == lead + trail
    ensures DropEmpty(pieces) != [] ==>
      |gaps'| + 1 == |DropEmpty(pieces)| && Interleave(pieces, gaps) == lead + Interleave(DropEmpty(pieces), gaps') + trail
  {
    var p1, g1, p2;
    lead, p1, g1 := TrimFront(pieces, gaps, sep);
    p2, gaps', trail := TrimBack(p1, g1, sep);
    assert Interleave(pieces, gaps) == lead + (Interleave(p2, gaps') + trail);
    if p2 == [[]] {
      assert Interleave(p2, gaps') == [];
      assert DropEmpty(p2) == [];
    } else {
      DropEmptyNonEmpty(p2);
    }
  }

  /** `s.split()` treats every run of whitespace as one separator: `s` is
      leading whitespace, the tokens with a non-empty whitespace run between
      each two consecutive ones, and trailing whitespace; with no tokens, `s`
      is whitespace only. */
  lemma SplitWhitespaceLayout(s: string) returns (lead: string, gaps: seq<string>, trail: string)
    ensures AllSeparators(lead, Space) && AllSeparators(trail, Space)
    ensures SplitWhitespace(s) == [] ==> s == lead + trail
    ensures SplitWhitespace(s) != [] ==>
      |gaps| + 1 == |SplitWhitespace(s)| && s == lead + Interleave(SplitWhitespace(s), gaps) + trail
    ensures forall k :: 0 <= k < |gaps| ==> gaps[k] != [] && AllSeparators(gaps[k], Space)
  {
    InterleaveSplitRuns(s, Space);
    SplitRunsInterior(s, Space);
    lead, gaps, trail := TrimEnds(SplitRuns(s, Space), Runs(s, Space), Space);
  }

  // ---------------------------------------------------------------------
  // Properties of stripping

  /** `StripChars` is the only slice with the properties it promises: a
      slice whose ends are not in `chars` and outside of which everything
      is in `chars` is the stripped string. */
  lemma StripCharsUnique(s: string, chars: string, t: string, i: int)
    requires TrimmedAt(s, chars, t, i)
    requires t == [] || (t[0] !in chars && t[|t| - 1] !in chars)
    ensures StripChars(s, chars) == t
  {
    var r := StripChars(s, chars);
    var j :| TrimmedAt(s, chars, r, j);
    if t == [] {
      assert forall k :: 0 <= k < |s| ==> s[k] in chars;
    } else {
      var last := i + |t| - 1;
      assert s[i] == t[0] && s[last] == t[|t| - 1];
      assert r != [];
      var rLast := j + |r| - 1;
      assert s[j] == r[0] && s[rLast] == r[|r| - 1];
      assert !(i < j) && !(j < i);
      assert !(last < rLast) && !(rLast < last);
    }
  }

  /** A string is left unchanged by `strip(chars)` exactly when it is empty
      or neither of its ends is in `chars`. */
  lemma StripCharsUnchanged(s: string, chars: string)
    ensures StripChars(s, chars) == s <==> (s == [] || (s[0] !in chars && s[|s| - 1] !in chars))
  {
    if s == [] || (s[0] !in chars && s[|s| - 1] !in chars) {
      assert TrimmedAt(s, chars, s, 0);
      StripCharsUnique(s, chars, s, 0);
    }
  }

  /** What `Strip` promises, for any set of characters. */
  lemma StripCharsFacts(s: string, chars: string)
    ensures var r := StripChars(s, chars);
      && (r == [] || (r[0] !in chars && r[|r| - 1] !in chars))
      && Contains(s, r)
      && (s == [] || (s[0] !in chars && s[|s| - 1] !in chars) ==> r == s)
  {
    StripCharsSubstring(s, chars);
    StripCharsUnchanged(s, chars);
  }

  /** Stripping twice with the same characters is stripping once. */
  lemma StripCharsIdempotent(s: string, chars: string)
    ensures StripChars(StripChars(s, chars), chars) == StripChars(s, chars)
  {
    StripCharsUnchanged(StripChars(s, chars), chars);
  }

  /** The stripped string is a substring of the original. */
  lemma StripCharsSubstring(s: string, chars: string)
    ensures Contains(s, StripChars(s, chars))
  {
    var r := StripChars(s, chars);
    var i :| TrimmedAt(s, chars, r, i);
  }

  // ---------------------------------------------------------------------
  // Examples

  /** Runs of non-word characters collapse into one cut. */
  lemma SplitNonWordExample()
    ensures SplitNonWord("a, b") == ["a", "b"]
  {
    assert "a, b"[1..] == ", b" && ", b"[1..] == " b" && " b"[1..] == "b" && "b"[1..] == [];
    assert ['b'] + [] == "b" && ['a'] + [] == "a";
    assert SplitRuns("b", NonWord) == ["b"];
    assert SplitRuns(" b", NonWord) == ["", "b"];
    assert SplitRuns(", b", NonWord) == ["", "b"];
  }

  /** Consecutive line breaks give an empty line between them. */
  lemma SplitLinesExample()
    ensures SplitLines("a\n\nb") == ["a", "", "b"]
  {
    assert "a\n\nb"[1..] == "\n\nb" && "\n\nb"[1..] == "\nb" && "\nb"[1..] == "b";
    assert "b"[1..] == [] && ['b'] + [] == "b";
    assert SplitOn("b", '\n') == ["b"];
    assert ['a'] + [] == "a";
    assert SplitOn("\nb", '\n') == ["", "b"];
    assert SplitOn("\n\nb", '\n') == ["", "", "b"];
  }

  /** `"입니다"` is stripped as the set of its three syllables, from both ends. */
  lemma StripSetExample()
    ensures StripChars("입니다pw다", "입니다") == "pw"
  {
    StripCharsUnique("입니다pw다", "입니다", "pw", 3);
  }
}
