/**
 * Password-candidate extraction from a text (`extract_passwords`) and the
 * data it works from: one password word per locale, one compiled pattern per
 * word, and the character sets candidates are stripped of.
 *
 * `Extracted` states, step by step, the set the extractor builds;
 * `ExtractPasswords` builds it the way `extract_passwords` does, by growing one
 * set in nested loops, and is proved to return exactly `Extracted(text)`.
 */
module Utils {
  import opened PyStrings
  import opened PasswordPattern

  /** The word for "password" in each supported locale, in lower case. */
  const PasswordWords: seq<string> := [
    "كلمه السر",        // Arabic
    "密码",              // Chinese Simplified
    "密碼",              // Chinese Traditional
    "password",         // English
    "mot de passe",     // French
    "passwort",         // German
    "parola d'ordine",  // Italian
    "비밀번호",          // Korean
    "parole",           // Latvian, Lithuanian
    "senha",            // Portuguese
    "пароль",           // Russian
    "contraseña"        // Spanish
  ]

  /** `[re.compile(fr".*{p}:(.+)", re.I) for p in PASSWORD_WORDS]`: one
      pattern per password word, at the same index. */
  function CompilePasswordPatterns(): (r: seq<Pattern>)
    ensures |r| == |PasswordWords|
    ensures forall i :: 0 <= i < |r| ==> r[i].word == PasswordWords[i]
  {
    seq(|PasswordWords|, i requires 0 <= i < |PasswordWords| => Pattern(PasswordWords[i]))
  }

  const PasswordRegexes: seq<Pattern> := CompilePasswordPatterns()

  /** The arguments given to `strip`, each read as a set of characters. */
  const PasswordStrip: seq<string> := ["\"", "'", "입니다", "이에요"]

  /** `set(pieces)` */
  function Elems(pieces: seq<string>): set<string> {
    set x | x in pieces
  }

  /** `set(text.split())` */
  function Tokens(text: string): set<string> {
    Elems(SplitWhitespace(text))
  }

  /** `set(text.split("\n"))` */
  function Lines(text: string): set<string> {
    Elems(SplitLines(text))
  }

  /** `re.split(r"\W+", text)`, as a set. */
  function Pieces(text: string): set<string> {
    Elems(SplitNonWord(text))
  }

  ghost predicate NewlineFree(lines: set<string>) {
    forall line :: line in lines ==> '\n' !in line
  }

  lemma NewlineFreeSubset(lines: set<string>, sub: set<string>)
    requires NewlineFree(lines) && sub <= lines
    ensures NewlineFree(sub)
  {
  }

  /** Neither a whitespace token nor a line holds a line break, so the
      patterns are only ever applied to single lines. */
  lemma TokensAndLinesNewlineFree(text: string)
    ensures NewlineFree(Tokens(text)) && NewlineFree(Lines(text))
  {
    assert IsSpace('\n');
    forall line | line in Tokens(text) ensures '\n' !in line {
      var k :| 0 <= k < |SplitWhitespace(text)| && SplitWhitespace(text)[k] == line;
      assert Free(line, Space);
    }
  }

  /** The union of `f(p)` over every `p` in `ps`. */
  function UnionOver(ps: set<string>, f: string --> set<string>): set<string>
    requires forall p :: p in ps ==> f.requires(p)
  {
    set p, x | p in ps && x in f(p) :: x
  }

  /** Adding one more element to `ps` adds its image to the union. */
  lemma UnionOverInsert(done: set<string>, p: string, f: string --> set<string>)
    requires forall q :: q in done + {p} ==> f.requires(q)
    ensures UnionOver(done + {p}, f) == UnionOver(done, f) + f(p)
  {
    var lhs, rhs := UnionOver(done + {p}, f), UnionOver(done, f) + f(p);
    forall x | x in lhs ensures x in rhs {
      var q :| q in done + {p} && x in f(q);
    }
    forall x | x in rhs ensures x in lhs {
      if x !in f(p) {
        var q :| q in done && x in f(q);
        assert q in done + {p};
      }
    }
  }

  lemma UnionOverMember(ps: set<string>, f: string --> set<string>, p: string, x: string)
    requires forall q :: q in ps ==> f.requires(q)
    requires p in ps && x in f(p)
    ensures x in UnionOver(ps, f)
  {
  }

  lemma UnionOverWitness(ps: set<string>, f: string --> set<string>, x: string) returns (p: string)
    requires forall q :: q in ps ==> f.requires(q)
    requires x in UnionOver(ps, f)
    ensures p in ps && x in f(p)
  {
    p :| p in ps && x in f(p);
  }

  /** What splitting `line` with pattern `i` contributes: nothing unless the
      lower-cased line contains word `i`, and only substrings of the line. */
  function KeyedLine(i: nat, line: string): (r: set<string>)
    requires i < |PasswordRegexes| && '\n' !in line
    ensures r != {} ==> Contains(LowerStr(line), PasswordWords[i])
    ensures forall x :: x in r ==> Contains(line, x)
  {
    SplitPiecesInLine(PasswordRegexes[i], line);
    if Contains(LowerStr(line), PasswordWords[i]) then Elems(Split(PasswordRegexes[i], line)) else {}
  }

  /** `KeyedLine(i, _)` as a function value, defined on lines without a
      line break. */
  function KeyedBy(i: nat): string --> set<string>
    requires i < |PasswordRegexes|
  {
    line requires '\n' !in line => KeyedLine(i, line)
  }

  /** Everything pattern `i` contributes over a set of lines. */
  function Keyed(i: nat, lines: set<string>): set<string>
    requires i < |PasswordRegexes| && NewlineFree(lines)
  {
    UnionOver(lines, KeyedBy(i))
  }

  lemma KeyedMember(i: nat, lines: set<string>, line: string, x: string)
    requires i < |PasswordRegexes| && NewlineFree(lines)
    requires line in lines && x in KeyedLine(i, line)
    ensures x in Keyed(i, lines)
  {
    UnionOverMember(lines, KeyedBy(i), line, x);
  }

  /** Everything `Keyed(i, lines)` holds comes from one of the lines. */
  lemma KeyedWitness(i: nat, lines: set<string>, x: string) returns (line: string)
    requires i < |PasswordRegexes| && NewlineFree(lines)
    requires x in Keyed(i, lines)
    ensures line in lines && '\n' !in line && x in KeyedLine(i, line)
  {
    line := UnionOverWitness(lines, KeyedBy(i), x);
  }

  /** What patterns `0 .. n-1` contribute over the tokens and the lines. */
  function MatchedBelow(text: string, n: nat): set<string>
    requires n <= |PasswordRegexes|
  {
    if n == 0 then {}
    else
      TokensAndLinesNewlineFree(text);
      MatchedBelow(text, n - 1) + Keyed(n - 1, Tokens(text)) + Keyed(n - 1, Lines(text))
  }

  lemma MatchedBelowStep(text: string, i: nat)
    requires i < |PasswordRegexes|
    ensures NewlineFree(Tokens(text)) && NewlineFree(Lines(text))
    ensures MatchedBelow(text, i + 1) == MatchedBelow(text, i) + Keyed(i, Tokens(text)) + Keyed(i, Lines(text))
  {
    TokensAndLinesNewlineFree(text);
  }

  /** The candidates gathered before the stripping pass. */
  function Gathered(text: string): set<string> {
    Tokens(text) + Pieces(text) + MatchedBelow(text, |PasswordRegexes|)
  }

  /** `[q.strip(c) for c in PASSWORD_STRIP]`: one variant per strip set,
      each a substring of `q`. */
  function StripVariants(q: string): (r: seq<string>)
    ensures |r| == |PasswordStrip|
    ensures forall k :: 0 <= k < |r| ==> Contains(q, r[k])
  {
    StripsAreSubstrings(q);
    seq(|PasswordStrip|, k requires 0 <= k < |PasswordStrip| => StripChars(q, PasswordStrip[k]))
  }

  lemma StripsAreSubstrings(q: string)
    ensures forall chars :: Contains(q, StripChars(q, chars))
  {
    forall chars ensures Contains(q, StripChars(q, chars)) {
      StripCharsSubstring(q, chars);
    }
  }

  /** What the stripping pass adds for one candidate `p`. */
  function StrippedForms(p: string): set<string> {
    Elems(StripVariants(Strip(p)))
  }

  /** What the stripping pass adds for the candidates `ps`. */
  function Stripped(ps: set<string>): set<string> {
    UnionOver(ps, StrippedForms)
  }

  lemma StrippedMember(ps: set<string>, p: string, x: string)
    requires p in ps && x in StripVariants(Strip(p))
    ensures x in Stripped(ps)
  {
    UnionOverMember(ps, StrippedForms, p, x);
  }

  /** Everything `Stripped(ps)` holds is a variant of one of the `ps`. */
  lemma StrippedWitness(ps: set<string>, x: string) returns (p: string)
    requires x in Stripped(ps)
    ensures p in ps && x in StripVariants(Strip(p))
  {
    p := UnionOverWitness(ps, StrippedForms, x);
  }

  /** The four strip sets have no character in common. */
  lemma PasswordStripDisjoint()
    ensures forall a, b, c :: 0 <= a < b < |PasswordStrip| && c in PasswordStrip[a] ==> c !in PasswordStrip[b]
  {
  }

  /** The assumption behind the stripping pass: since the strip sets are
      disjoint and a string has only two ends, at least one of them leaves
      a string unchanged, so the plainly whitespace-stripped candidate is
      always among what the pass adds. */
  lemma SomeStripSetKeeps(q: string)
    ensures exists k :: 0 <= k < |PasswordStrip| && StripChars(q, PasswordStrip[k]) == q
    ensures q in StripVariants(q)
  {
    var k: nat;
    if q == [] {
      k := 0;
    } else {
      var first, last := q[0], q[|q| - 1];
      PasswordStripDisjoint();
      if first !in PasswordStrip[0] && last !in PasswordStrip[0] {
        k := 0;
      } else if first !in PasswordStrip[1] && last !in PasswordStrip[1] {
        k := 1;
      } else {
        k := 2;
      }
    }
    StripCharsUnchanged(q, PasswordStrip[k]);
    assert StripVariants(q)[k] == q;
  }

  /** The stripping pass adds the whitespace-stripped form of every
      candidate it visits. */
  lemma StripInStripped(ps: set<string>)
    ensures forall p :: p in ps ==> Strip(p) in Stripped(ps)
  {
    forall p | p in ps ensures Strip(p) in Stripped(ps) {
      SomeStripSetKeeps(Strip(p));
      StrippedMember(ps, p, Strip(p));
    }
  }

  /** The result of `extract_passwords(text)`: the gathered candidates and
      what one stripping pass over them adds. Nothing gathered is lost, and
      the whitespace-stripped form of every gathered candidate is in it. */
  function Extracted(text: string): (r: set<string>)
    ensures Gathered(text) <= r
    ensures forall p :: p in Gathered(text) ==> Strip(p) in r
  {
    StripInStripped(Gathered(text));
    Gathered(text) + Stripped(Gathered(text))
  }

  /** Moving one element from the to-do set to the done set. */
  lemma MoveToDone<T>(all: set<T>, rest: set<T>, x: T)
    requires x in rest && rest <= all
    ensures all - (rest - {x}) == (all - rest) + {x}
  {
  }

  lemma KeyedInsert(i: nat, done: set<string>, line: string)
    requires i < |PasswordRegexes| && NewlineFree(done) && '\n' !in line
    ensures NewlineFree(done + {line})
    ensures Keyed(i, done + {line}) == Keyed(i, done) + KeyedLine(i, line)
  {
    UnionOverInsert(done, line, KeyedBy(i));
  }

  lemma StrippedInsert(done: set<string>, p: string)
    ensures Stripped(done + {p}) == Stripped(done) + StrippedForms(p)
  {
    UnionOverInsert(done, p, StrippedForms);
  }

  /** One inner loop of `extract_passwords`: every line of `lines` whose
      lower-cased form contains word `i` is split with pattern `i`, and the
      pieces are added to `passwords`. */
  method AddSplitsOfMatchingLines(passwords: set<string>, i: nat, lines: set<string>)
    returns (updated: set<string>)
    requires i < |PasswordRegexes| && NewlineFree(lines)
    ensures updated == passwords + Keyed(i, lines)
  {
    updated := passwords;
    var r := PasswordRegexes[i];
    var rest := lines;
    NewlineFreeSubset(lines, {});
    while rest != {}
      invariant rest <= lines
      invariant NewlineFree(lines - rest)
      invariant updated == passwords + Keyed(i, lines - rest)
      decreases |rest|
    {
      var line :| line in rest;
      ghost var done := lines - rest;
      ghost var prev := updated;
      if Contains(LowerStr(line), PasswordWords[i]) {
        updated := updated + Elems(Split(r, line));
        assert updated == prev + KeyedLine(i, line);
      } else {
        assert KeyedLine(i, line) == {};
      }
      KeyedInsert(i, done, line);
      MoveToDone(lines, rest, line);
      NewlineFreeSubset(lines, done + {line});
      rest := rest - {line};
    }
  }

  /** The last loop of `extract_passwords`: for each candidate of the
      snapshot `list(passwords)`, its whitespace-stripped form stripped once
      more with each of `PasswordStrip` is added. Strings added here are not
      visited themselves. */
  method AddStrippedForms(passwords: set<string>) returns (updated: set<string>)
    ensures updated == passwords + Stripped(passwords)
  {
    updated := passwords;
    var rest := passwords;
    while rest != {}
      invariant rest <= passwords
      invariant updated == passwords + Stripped(passwords - rest)
      decreases |rest|
    {
      var p :| p in rest;
      var q := Strip(p);
      updated := updated + Elems(StripVariants(q));
      StrippedInsert(passwords - rest, p);
      MoveToDone(passwords, rest, p);
      rest := rest - {p};
    }
  }

  /** The candidates gathered once patterns `0 .. n-1` have been applied. */
  function GatheredBelow(text: string, n: nat): set<string>
    requires n <= |PasswordRegexes|
  {
    Tokens(text) + Pieces(text) + MatchedBelow(text, n)
  }

  lemma GatheredBelowZero(text: string)
    ensures GatheredBelow(text, 0) == Tokens(text) + Pieces(text)
  {
  }

  /** Adding what pattern `i` contributes over the tokens, then over the
      lines, moves the gathered candidates from `i` to `i + 1`. */
  lemma GatheredBelowStep(text: string, i: nat, p0: set<string>, p1: set<string>, p2: set<string>)
    requires i < |PasswordRegexes| && NewlineFree(Tokens(text)) && NewlineFree(Lines(text))
    requires p0 == GatheredBelow(text, i)
    requires p1 == p0 + Keyed(i, Tokens(text)) && p2 == p1 + Keyed(i, Lines(text))
    ensures p2 == GatheredBelow(text, i + 1)
  {
    MatchedBelowStep(text, i);
  }

  /** `extract_passwords(text)`: the candidate set is only ever grown, first
      by the tokens and the `\W+` pieces, then, pattern by pattern, by
      splitting every matching token and every matching line, and last by
      one stripping pass over a snapshot of what was gathered. */
  method ExtractPasswords(text: string) returns (passwords: set<string>)
    ensures passwords == Extracted(text)
  {
    var textSplit, textSplitN := Tokens(text), Lines(text);
    passwords := Tokens(text) + Pieces(text);
    GatheredBelowZero(text);
    TokensAndLinesNewlineFree(text);
    for i := 0 to |PasswordRegexes|
      invariant passwords == GatheredBelow(text, i)
    {
      ghost var p0 := passwords;
      passwords := AddSplitsOfMatchingLines(passwords, i, textSplit);
      ghost var p1 := passwords;
      passwords := AddSplitsOfMatchingLines(passwords, i, textSplitN);
      GatheredBelowStep(text, i, p0, p1, passwords);
    }
    passwords := AddStrippedForms(passwords);
  }
}
