/**
 * What `extract_passwords` guarantees about its result, stated over
 * `Extracted(text)`, the set `ExtractPasswords` is proved to return.
 */
module ExtractProperties {
  import opened PyStrings
  import opened PasswordPattern
  import opened Utils

  predicate IsLowerCase(s: string) {
    forall j :: 0 <= j < |s| ==> Lower(s[j]) == s[j]
  }

  lemma FirstWordsAreLowerCase()
    ensures forall i :: 0 <= i < 4 ==> IsLowerCase(PasswordWords[i])
  {
    assert IsLowerCase(PasswordWords[0]);
    assert IsLowerCase(PasswordWords[1]);
    assert IsLowerCase(PasswordWords[2]);
    assert IsLowerCase(PasswordWords[3]);
  }

  lemma MiddleWordsAreLowerCase()
    ensures forall i :: 4 <= i < 8 ==> IsLowerCase(PasswordWords[i])
  {
    assert IsLowerCase(PasswordWords[4]);
    assert IsLowerCase(PasswordWords[5]);
    assert IsLowerCase(PasswordWords[6]);
    assert IsLowerCase(PasswordWords[7]);
  }

  lemma LastWordsAreLowerCase()
    ensures forall i :: 8 <= i < 12 ==> IsLowerCase(PasswordWords[i])
  {
    assert IsLowerCase(PasswordWords[8]);
    assert IsLowerCase(PasswordWords[9]);
    assert IsLowerCase(PasswordWords[10]);
    assert IsLowerCase(PasswordWords[11]);
  }

  /** The password words are written in lower case, so testing them
      against `line.lower()` finds every occurrence that is equal up to the
      model's `Lower`. */
  lemma PasswordWordIsLowerCase(i: nat)
    requires i < |PasswordWords|
    ensures IsLowerCase(PasswordWords[i])
    ensures LowerStr(PasswordWords[i]) == PasswordWords[i]
  {
    FirstWordsAreLowerCase();
    MiddleWordsAreLowerCase();
    LastWordsAreLowerCase();
  }

  /** A `word:` match in a line, with case compared through the model's
      `Lower`, means the lower-cased line contains the word. */
  lemma KeyImpliesWordInLowerCase(line: string, i: nat, k: int)
    requires i < |PasswordWords| && KeyAt(line, PasswordWords[i], k)
    ensures Contains(LowerStr(line), PasswordWords[i])
  {
    var w := PasswordWords[i];
    var low := LowerStr(line);
    PasswordWordIsLowerCase(i);
    forall j | 0 <= j < |w| ensures low[k..k + |w|][j] == w[j] {
      assert FoldEq(line[k + j], w[j]);
    }
    assert OccursAt(low, w, k);
  }

  /** The matching step never takes anything away from what was there. */
  lemma {:induction false} MatchedBelowGrows(text: string, n: nat, m: nat)
    requires n <= m <= |PasswordRegexes|
    ensures MatchedBelow(text, n) <= MatchedBelow(text, m)
    decreases m
  {
    if n < m {
      MatchedBelowGrows(text, n, m - 1);
    }
  }

  /** What pattern `i` contributes for one token or line ends up in the
      matched candidates. */
  lemma KeyedLineInMatched(text: string, i: nat, line: string, x: string)
    requires i < |PasswordRegexes|
    requires line in Tokens(text) || line in Lines(text)
    requires '\n' !in line && x in KeyedLine(i, line)
    ensures x in MatchedBelow(text, |PasswordRegexes|)
  {
    TokensAndLinesNewlineFree(text);
    if line in Tokens(text) {
      KeyedMember(i, Tokens(text), line, x);
    } else {
      KeyedMember(i, Lines(text), line, x);
    }
    MatchedBelowStep(text, i);
    MatchedBelowGrows(text, i + 1, |PasswordRegexes|);
  }

  /** Every whitespace token and every `\W+` piece of the text is a
      candidate, and nothing gathered before the stripping pass is lost. */
  lemma SplitPiecesAreCandidates(text: string)
    ensures forall t :: t in SplitWhitespace(text) ==> t in Extracted(text)
    ensures forall t :: t in SplitNonWord(text) ==> t in Extracted(text)
    ensures Gathered(text) <= Extracted(text)
  {
  }

  /** If a token or a line holds a password word, in any case, followed by
      `:` and at least one more character, the text after the last such
      `word:` is a candidate. */
  lemma KeyedSuffixIsCandidate(text: string, i: nat, line: string, k: int)
    requires i < |PasswordWords|
    requires line in SplitWhitespace(text) || line in SplitLines(text)
    requires LastKeyAt(line, PasswordWords[i], k)
    ensures line[k + |PasswordWords[i]| + 1..] in Extracted(text)
  {
    TokensAndLinesNewlineFree(text);
    assert line in Tokens(text) || line in Lines(text);
    assert '\n' !in line;
    KeyedLineSuffix(i, line, k);
    KeyedLineInMatched(text, i, line, line[k + |PasswordWords[i]| + 1..]);
  }

  /** For one line, the text after the last `word:` is among what pattern
      `i` contributes. */
  lemma KeyedLineSuffix(i: nat, line: string, k: int)
    requires i < |PasswordWords| && '\n' !in line
    requires LastKeyAt(line, PasswordWords[i], k)
    ensures line[k + |PasswordWords[i]| + 1..] in KeyedLine(i, line)
  {
    var w := PasswordWords[i];
    var suffix := line[k + |w| + 1..];
    KeyImpliesWordInLowerCase(line, i, k);
    assert PasswordRegexes[i].word == w;
    assert Split(PasswordRegexes[i], line) == [[], suffix, []];
  }

  /** A line that holds a password word but no `word:` followed by more text
      is a candidate as a whole. */
  lemma UnmatchedLineIsCandidate(text: string, i: nat, line: string)
    requires i < |PasswordWords|
    requires line in SplitLines(text)
    requires Contains(LowerStr(line), PasswordWords[i])
    requires forall k :: !KeyAt(line, PasswordWords[i], k)
    ensures line in Extracted(text)
  {
    TokensAndLinesNewlineFree(text);
    assert line in Lines(text);
    assert PasswordRegexes[i].word == PasswordWords[i];
    assert Split(PasswordRegexes[i], line) == [line];
    assert line in KeyedLine(i, line);
    KeyedLineInMatched(text, i, line, line);
  }

  /** `q` was contributed by splitting `line` with pattern `i`: the
      lower-cased line contains word `i`, and `q` is the whole line when
      `word:` does not match in it, or else the empty string or the text
      after the last `word:`. */
  ghost predicate SplitContributes(q: string, i: nat, line: string)
    requires i < |PasswordWords|
  {
    var w := PasswordWords[i];
    && Contains(LowerStr(line), w)
    && (|| ((forall k :: !KeyAt(line, w, k)) && q == line)
        || (exists k :: LastKeyAt(line, w, k) && (q == [] || q == line[k + |w| + 1..])))
  }

  /** What pattern `i` contributes for one line is the line itself or a
      piece of its split, and only when the lower-cased line holds word `i`. */
  lemma KeyedLineOrigin(i: nat, line: string, q: string)
    requires i < |PasswordRegexes| && '\n' !in line && q in KeyedLine(i, line)
    ensures SplitContributes(q, i, line)
  {
    assert PasswordRegexes[i].word == PasswordWords[i];
    SplitShapes(PasswordRegexes[i], line);
  }

  /** Everything the matching step adds comes from splitting a token or a
      line with the pattern of a word that its lower-cased form contains. */
  lemma {:induction false} MatchedCandidateOrigin(text: string, n: nat, q: string)
    requires n <= |PasswordRegexes| && q in MatchedBelow(text, n)
    ensures exists i, line ::
      && 0 <= i < |PasswordWords|
      && (line in SplitWhitespace(text) || line in SplitLines(text))
      && SplitContributes(q, i, line)
    decreases n
  {
    if n > 0 {
      var i := n - 1;
      TokensAndLinesNewlineFree(text);
      if q in MatchedBelow(text, i) {
        MatchedCandidateOrigin(text, i, q);
      } else {
        MatchedBelowStep(text, i);
        var line;
        if q in Keyed(i, Tokens(text)) {
          line := KeyedWitness(i, Tokens(text), q);
        } else {
          line := KeyedWitness(i, Lines(text), q);
        }
        KeyedLineOrigin(i, line, q);
        assert line in SplitWhitespace(text) || line in SplitLines(text);
      }
    }
  }

  lemma {:induction false} MatchedAreSubstrings(text: string, n: nat)
    requires n <= |PasswordRegexes|
    ensures forall q :: q in MatchedBelow(text, n) ==> Contains(text, q)
    decreases n
  {
    if n > 0 {
      var i := n - 1;
      MatchedAreSubstrings(text, i);
      TokensAndLinesNewlineFree(text);
      SplitWhitespaceSubstrings(text);
      SplitOnSubstrings(text, '\n');
      MatchedBelowStep(text, i);
      forall q | q in Keyed(i, Tokens(text)) + Keyed(i, Lines(text)) ensures Contains(text, q) {
        var line;
        if q in Keyed(i, Tokens(text)) {
          line := KeyedWitness(i, Tokens(text), q);
        } else {
          line := KeyedWitness(i, Lines(text), q);
        }
        SplitPiecesInLine(PasswordRegexes[i], line);
        ContainsTransitive(text, line, q);
      }
    }
  }

  lemma GatheredAreSubstrings(text: string)
    ensures forall q :: q in Gathered(text) ==> Contains(text, q)
  {
    SplitWhitespaceSubstrings(text);
    SplitRunsSubstrings(text, NonWord);
    MatchedAreSubstrings(text, |PasswordRegexes|);
  }

  /** Every candidate is a contiguous substring of the text: splitting and
      stripping only ever cut pieces out of it. */
  lemma CandidatesAreSubstrings(text: string)
    ensures forall q :: q in Extracted(text) ==> Contains(text, q)
  {
    GatheredAreSubstrings(text);
    forall q | q in Stripped(Gathered(text)) ensures Contains(text, q) {
      var p := StrippedWitness(Gathered(text), q);
      var k :| 0 <= k < |PasswordStrip| && StripVariants(Strip(p))[k] == q;
      StripCharsSubstring(p, Whitespace);
      StripCharsSubstring(Strip(p), PasswordStrip[k]);
      ContainsTransitive(p, Strip(p), q);
      ContainsTransitive(text, p, q);
    }
  }
}
