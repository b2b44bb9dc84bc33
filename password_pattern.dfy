/**
 * The compiled password patterns: for a password word W, the pattern
 * `.*W:(.+)` compiled case-insensitively, and what `re.split` does with it on
 * a string that holds no line break.
 */
module PasswordPattern {
  import opened PyStrings

  datatype Option<T> = None | Some(value: T)

  /** `re.compile(".*" + word + ":(.+)", re.I)` */
  datatype Pattern = Pattern(word: string)

  /** Case-insensitive equality of two characters, as `re.I` compares them:
      an ASCII letter matches itself in either case and nothing else, and
      the colon matches only itself. */
  predicate FoldEq(a: char, b: char): (r: bool)
    ensures a == b ==> r
    ensures 'A' <= a <= 'Z' ==> (r <==> b == a || b as int == a as int + 32)
    ensures 'a' <= a <= 'z' ==> (r <==> b == a || b as int == a as int - 32)
    ensures a == ':' ==> (r <==> b == ':')
  {
    Lower(a) == Lower(b)
  }

  /** `word:` matches case-insensitively at index `k` of `line` and at least
      one character follows the colon, so that `(.+)` can match; the colon
      itself is matched literally. */
  predicate KeyAt(line: string, word: string, k: int): (r: bool)
    ensures r ==> 0 <= k && k + |word| + 1 < |line| && line[k + |word|] == ':'
  {
    && 0 <= k
    && k + |word| + 1 < |line|
    && (forall j :: 0 <= j < |word| ==> FoldEq(line[k + j], word[j]))
    && FoldEq(line[k + |word|], ':')
  }

  /** `k` is the last index at which `word:` matches in `line`. */
  ghost predicate LastKeyAt(line: string, word: string, k: int) {
    KeyAt(line, word, k) && forall m :: k < m ==> !KeyAt(line, word, m)
  }

  /** The last index below `n` at which `word:` matches, if any: the place
      the greedy `.*` backtracks to. */
  function LastKeyBelow(line: string, word: string, n: nat): (r: Option<nat>)
    ensures r.None? ==> forall m :: m < n ==> !KeyAt(line, word, m)
    ensures r.Some? ==> r.value < n && KeyAt(line, word, r.value)
    ensures r.Some? ==> forall m :: r.value < m < n ==> !KeyAt(line, word, m)
  {
    if n == 0 then None
    else if KeyAt(line, word, n - 1) then Some(n - 1)
    else LastKeyBelow(line, word, n - 1)
  }

  /** `re.split(pattern, line)` on a line with no `\n`. With no match the
      line comes back alone. Otherwise the single match spans the whole line
      (`.*` starts at 0 and `(.+)` runs to the end), so the result is the
      captured group between two empty strings, and the group is everything
      after the last `word:`. */
  function Split(p: Pattern, line: string): (r: seq<string>)
    requires '\n' !in line
    ensures (forall k :: !KeyAt(line, p.word, k)) <==> r == [line]
    ensures forall k :: LastKeyAt(line, p.word, k) ==> r == [[], line[k + |p.word| + 1..], []]
  {
    match LastKeyBelow(line, p.word, |line|)
    case None => [line]
    case Some(k) =>
      assert LastKeyAt(line, p.word, k);
      [[], line[k + |p.word| + 1..], []]
  }

  /** The two shapes `re.split` can return for a password pattern. */
  lemma SplitShapes(p: Pattern, line: string)
    requires '\n' !in line
    ensures || ((forall k :: !KeyAt(line, p.word, k)) && Split(p, line) == [line])
            || (exists k :: LastKeyAt(line, p.word, k) && Split(p, line) == [[], line[k + |p.word| + 1..], []])
  {
    match LastKeyBelow(line, p.word, |line|)
    case None =>
    case Some(k) =>
      assert LastKeyAt(line, p.word, k);
  }

  /** Every piece `re.split` returns is a substring of the line. */
  lemma SplitPiecesInLine(p: Pattern, line: string)
    requires '\n' !in line
    ensures forall x :: x in Split(p, line) ==> Contains(line, x)
  {
    match LastKeyBelow(line, p.word, |line|)
    case None =>
      assert Split(p, line) == [line];
      ContainsSlice(line, 0, |line|);
      assert line[0..|line|] == line;
    case Some(k) =>
      var start := k + |p.word| + 1;
      assert LastKeyAt(line, p.word, k);
      assert Split(p, line) == [[], line[start..], []];
      ContainsSlice(line, 0, 0);
      ContainsSlice(line, start, |line|);
      assert line[start..|line|] == line[start..];
  }

  /** The word matches in any case, and the group is what follows the colon. */
  lemma SplitExample()
    ensures Split(Pattern("password"), "Password:abc") == ["", "abc", ""]
  {
    assert KeyAt("Password:abc", "password", 0);
  }

  /** With two keys on the line, the greedy `.*` keeps only the text after
      the last one. */
  lemma SplitLastKeyExample()
    ensures Split(Pattern("pw"), "pw:a pw:b") == ["", "b", ""]
  {
    assert KeyAt("pw:a pw:b", "pw", 5);
  }

  /** A key with nothing after the colon does not match `(.+)`. */
  lemma SplitEmptyValueExample()
    ensures Split(Pattern("pw"), "pw:") == ["pw:"]
  {
  }
}
