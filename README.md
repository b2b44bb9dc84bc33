# Password-candidate extraction, modelled in Dafny

The service helper library gives analysis services a heuristic,
`extract_passwords(text)`. It collects every string in a text that might be
an archive or document password. It builds one set of candidates:

1. every whitespace-separated token of the text;
2. every piece of the text cut at runs of non-word characters;
3. for every password word (one per locale, in `PASSWORD_WORDS`), every token
   and every line whose lower-cased form contains the word. The token or line
   is split with that word's case-insensitive pattern `.*word:(.+)`, which
   keeps the text after the last `word:`;
4. one pass over a snapshot of those candidates. It adds each candidate
   stripped of whitespace, and then stripped once more with each entry of
   `PASSWORD_STRIP`.

The project has four modules:

- `PyStrings` (`py_strings.dfy`) models the Python string operations the
  extractor relies on:
  - `str.split()` and `str.split("\n")`;
  - `re.split(r"\W+", …)`;
  - `str.strip()` and `str.strip(chars)`;
  - `str.lower()` and `in` on strings.

  Each comes with lemmas that tie it to a partner: a join that undoes a split,
  concatenation, a characterisation of the stripped slice, or idempotence.
- `PasswordPattern` (`password_pattern.dfy`) models the compiled patterns and
  what `re.split` returns for them on one line.
- `Utils` (`utils.dfy`) holds three things:
  - the module data (`PasswordWords`, `PasswordRegexes`, `PasswordStrip`);
  - the specification functions `Gathered` and `Extracted`;
  - the method `ExtractPasswords`. It grows one set in the nested loops of
    `extract_passwords` and is proved to return exactly `Extracted(text)`.
- `ExtractProperties` (`extract_properties.dfy`) proves the properties the
  extractor is meant to have. Each lemma states what ends up in the result.

Each `PASSWORD_STRIP` entry is passed to `str.strip`, which reads its argument
as a set of characters, not as a suffix. So `"입니다"` removes any of 입, 니
and 다 from either end, and the model does the same.

## Model

| member | source | states |
|---|---|---|
| Utils.ExtractPasswords | assemblyline_v4_service/common/utils.py:69-85 | the set built by the nested loops and the stripping pass is exactly `Extracted(text)`: tokens, `\W+` pieces, the pattern splits of matching tokens and lines, and one stripping pass over what was gathered |
| Utils.AddSplitsOfMatchingLines | assemblyline_v4_service/common/utils.py:75-80 | one inner loop adds, for every line of the set holding word `i` after lower-casing, the pieces pattern `i` splits it into, and nothing else: the result is the old set plus `Keyed(i, lines)` |
| Utils.AddStrippedForms | assemblyline_v4_service/common/utils.py:81-84 | iterating a snapshot, the pass adds the `PasswordStrip` variants of each snapshot element's whitespace-stripped form, and does not visit what it adds |
| Utils.CompilePasswordPatterns | assemblyline_v4_service/common/utils.py:24 | one pattern per password word, and pattern `i` is built from word `i` |
| Utils.GatheredBelowStep | assemblyline_v4_service/common/utils.py:74-80 | one iteration of the outer loop, over the tokens and then the lines, moves the gathered set from pattern `i` to pattern `i + 1` |
| Utils.KeyedLine | assemblyline_v4_service/common/utils.py:76-77 | what splitting one token or line with pattern `i` adds: nothing unless the lower-cased line contains word `i`, and only substrings of the line |
| Utils.TokensAndLinesNewlineFree | assemblyline_v4_service/common/utils.py:71 | no token and no line holds a line break, so the patterns only ever see single lines |
| PasswordPattern.FoldEq | assemblyline_v4_service/common/utils.py:24 | the model's `re.I` character comparison: an ASCII letter matches itself in either case and nothing else, and `:` matches only itself |
| PasswordPattern.KeyAt | assemblyline_v4_service/common/utils.py:24 | a match of `word:` at index `k` lies inside the line, has a literal `:` after the word and leaves at least one character for `(.+)` |
| PasswordPattern.LastKeyBelow | assemblyline_v4_service/common/utils.py:24 | finds the last index below `n` where `word:` matches case-insensitively with a character after it, or reports that there is none |
| PasswordPattern.Split | assemblyline_v4_service/common/utils.py:77 | `re.split` with `.*word:(.+)`: the line alone if and only if no `word:` with text after it occurs, and otherwise `["", text after the last such word:, ""]` |
| PasswordPattern.SplitShapes | assemblyline_v4_service/common/utils.py:77 | the split has exactly one of the two shapes |
| PasswordPattern.SplitPiecesInLine | assemblyline_v4_service/common/utils.py:80 | every piece of the pattern split is a substring of the line |
| PasswordPattern.SplitExample | assemblyline_v4_service/common/utils.py:24 | `Password:abc` splits to `["", "abc", ""]` with the word `password`, since the match ignores case |
| PasswordPattern.SplitLastKeyExample | assemblyline_v4_service/common/utils.py:24 | with two keys on a line, the group is the text after the last one |
| PasswordPattern.SplitEmptyValueExample | assemblyline_v4_service/common/utils.py:24 | `pw:` with nothing after the colon does not match |
| PyStrings.SplitRuns | assemblyline_v4_service/common/utils.py:73 | the pieces of a split at separator runs hold no separator, there is at least one, and a leading run gives an empty first piece |
| PyStrings.Runs | assemblyline_v4_service/common/utils.py:73 | the cuts of the split: one fewer than the pieces, each a non-empty run of separators |
| PyStrings.InterleaveSplitRuns | assemblyline_v4_service/common/utils.py:73 | the pieces put back together with the separator runs between them give the text back, so the cuts fall exactly at the runs |
| PyStrings.SplitRunsInterior | assemblyline_v4_service/common/utils.py:73 | only the first and the last piece can be empty, so no two runs are adjacent and each run is maximal |
| PyStrings.SplitRunsTrailing | assemblyline_v4_service/common/utils.py:73 | a trailing separator run gives an empty last piece |
| PyStrings.SplitNonWord | assemblyline_v4_service/common/utils.py:73 | `re.split(r"\W+", text)` gives pieces of word characters only, which give the text back when put together with the non-word runs between them |
| PyStrings.ConcatSplitRuns | assemblyline_v4_service/common/utils.py:73 | the pieces concatenated give the text with its separators removed |
| PyStrings.SplitRunsSubstrings | assemblyline_v4_service/common/utils.py:73 | every `\W+` piece is a substring of the text |
| PyStrings.SplitNonWordExample | assemblyline_v4_service/common/utils.py:73 | `a, b` splits into `a` and `b`: a run of two non-word characters is one cut |
| PyStrings.DropEmpty | assemblyline_v4_service/common/utils.py:71 | keeps exactly the non-empty pieces |
| PyStrings.SplitWhitespace | assemblyline_v4_service/common/utils.py:71 | `text.split()` gives non-empty tokens without whitespace |
| PyStrings.SplitWhitespaceLayout | assemblyline_v4_service/common/utils.py:71 | the text is leading whitespace, the tokens with a non-empty whitespace run between each two consecutive ones, and trailing whitespace; with no tokens it is whitespace only |
| PyStrings.ConcatSplitWhitespace | assemblyline_v4_service/common/utils.py:71 | the tokens concatenated give the text with its whitespace removed |
| PyStrings.SplitWhitespaceSubstrings | assemblyline_v4_service/common/utils.py:71 | every token is a substring of the text |
| PyStrings.SplitOn | assemblyline_v4_service/common/utils.py:71 | `text.split("\n")` gives at least one piece, and no piece holds a line break |
| PyStrings.JoinSplitOn | assemblyline_v4_service/common/utils.py:71 | joining the lines with `\n` gives the text back |
| PyStrings.SplitOnJoin | assemblyline_v4_service/common/utils.py:71 | splitting a `\n`-join of line-break-free pieces gives the pieces back |
| PyStrings.SplitLines | assemblyline_v4_service/common/utils.py:71 | `text.split("\n")` gives lines without a line break, which give the text back when joined with `"\n"` |
| PyStrings.SplitOnSubstrings | assemblyline_v4_service/common/utils.py:71 | the first line is a prefix of the text and every line is a substring of it |
| PyStrings.SplitLinesExample | assemblyline_v4_service/common/utils.py:71 | two consecutive line breaks give an empty line between them |
| PyStrings.LStrip | assemblyline_v4_service/common/utils.py:84 | the result is the suffix left after removing every leading character in the set, and it does not start with one |
| PyStrings.RStrip | assemblyline_v4_service/common/utils.py:84 | the result is the prefix left after removing every trailing character in the set, and it does not end with one |
| PyStrings.StripChars | assemblyline_v4_service/common/utils.py:84 | `s.strip(chars)` with `chars` read as a set: the result is a slice of `s` whose ends are not in the set, and everything cut off on both sides is in the set |
| PyStrings.Strip | assemblyline_v4_service/common/utils.py:82 | `p.strip()` is a substring of `p` that neither starts nor ends with whitespace, and is `p` itself when `p` does not |
| PyStrings.StripCharsUnique | assemblyline_v4_service/common/utils.py:84 | any slice with those properties is the result, so the characterisation is exact |
| PyStrings.StripCharsUnchanged | assemblyline_v4_service/common/utils.py:84 | stripping leaves a string unchanged if and only if it is empty or neither end is in the set |
| PyStrings.StripCharsIdempotent | assemblyline_v4_service/common/utils.py:84 | stripping twice with the same set is stripping once |
| PyStrings.StripCharsSubstring | assemblyline_v4_service/common/utils.py:84 | the stripped string is a substring of the original |
| PyStrings.StripSetExample | assemblyline_v4_service/common/utils.py:26-31 | `"입니다"` strips the set of its three syllables from both ends, not a suffix |
| PyStrings.Lower | assemblyline_v4_service/common/utils.py:76 | the model's lower-casing turns exactly the ASCII letters into ASCII small letters and never moves a character across the ASCII boundary |
| PyStrings.LowerIdempotent | assemblyline_v4_service/common/utils.py:76 | lower-casing a lower-cased character changes nothing |
| PyStrings.LowerStr | assemblyline_v4_service/common/utils.py:76 | `line.lower()` has the length of `line`, is in lower case, and is equal to `line` up to case |
| PyStrings.Contains | assemblyline_v4_service/common/utils.py:76 | `word in line`: the empty string is in every string, and nothing longer than `line` is in it |
| PyStrings.ContainsTransitive | assemblyline_v4_service/common/utils.py:76 | a substring of a substring is a substring |
| ExtractProperties.PasswordWordIsLowerCase | assemblyline_v4_service/common/utils.py:10-23 | every password word is already lower case, so it can be compared with `line.lower()` |
| ExtractProperties.KeyImpliesWordInLowerCase | assemblyline_v4_service/common/utils.py:74-76 | whenever pattern `i` matches a line under the model's `Lower`-based case folding, the lower-cased line contains word `i`, so in the model the `in` test never hides a match |
| ExtractProperties.SplitPiecesAreCandidates | assemblyline_v4_service/common/utils.py:70-73 | every whitespace token and every `\W+` piece is in the result, and everything gathered before the stripping pass stays in it |
| ExtractProperties.MatchedBelowGrows | assemblyline_v4_service/common/utils.py:74-80 | later patterns only add candidates |
| ExtractProperties.KeyedLineInMatched | assemblyline_v4_service/common/utils.py:74-80 | what pattern `i` contributes for any token or line reaches the result of the matching step |
| ExtractProperties.KeyedSuffixIsCandidate | assemblyline_v4_service/common/utils.py:74-80 | for a token or line with a case-insensitive `word:` followed by text, the text after the last such `word:` is in the result |
| ExtractProperties.KeyedLineSuffix | assemblyline_v4_service/common/utils.py:77 | for a line with a last `word:` followed by text, that text is among what pattern `i` adds for the line |
| ExtractProperties.UnmatchedLineIsCandidate | assemblyline_v4_service/common/utils.py:78-80 | a line that contains a password word but has no `word:` followed by text is in the result whole |
| ExtractProperties.KeyedLineOrigin | assemblyline_v4_service/common/utils.py:74-80 | what pattern `i` contributes for a line is the line itself or a piece of its split, and only when the lower-cased line holds word `i` |
| ExtractProperties.MatchedCandidateOrigin | assemblyline_v4_service/common/utils.py:74-80 | every candidate the matching step adds comes from a token or line, split by the pattern of a word that the lower-cased token or line contains |
| Utils.PasswordStripDisjoint | assemblyline_v4_service/common/utils.py:26-31 | no character is in two of the strip sets |
| Utils.SomeStripSetKeeps | assemblyline_v4_service/common/utils.py:83-84 | for every string, one strip set leaves it unchanged, so the whitespace-stripped form is among the variants added |
| Utils.StripVariants | assemblyline_v4_service/common/utils.py:84 | `[q.strip(c) for c in PASSWORD_STRIP]` has one variant per strip set, each a substring of `q` |
| Utils.StripInStripped | assemblyline_v4_service/common/utils.py:81-84 | the stripping pass adds the whitespace-stripped form of every candidate it visits |
| Utils.Extracted | assemblyline_v4_service/common/utils.py:69-85 | the result of `extract_passwords`: nothing gathered before the stripping pass is lost, and the whitespace-stripped form of every gathered candidate is in it |
| ExtractProperties.MatchedAreSubstrings | assemblyline_v4_service/common/utils.py:74-80 | every candidate from the matching step is a substring of the text |
| ExtractProperties.GatheredAreSubstrings | assemblyline_v4_service/common/utils.py:70-80 | every candidate gathered before the stripping pass is a substring of the text |
| ExtractProperties.CandidatesAreSubstrings | assemblyline_v4_service/common/utils.py:69-85 | every string in the result is a contiguous substring of the input text |

## Left out

- `set_death_signal` (assemblyline_v4_service/common/utils.py:34-40) calls libc `prctl` through ctypes. It is a foreign call.
- `alarm_clock` and `TimeoutException` (assemblyline_v4_service/common/utils.py:43-66) install a SIGALRM handler and arm an OS alarm. This is signal handling.
- `ServiceAPI` and `ServiceAPIError` are outside this model: they are an HTTP client built on the network, retries and sleeps, and `extract_passwords` does not use them.
- The OCR detections are outside this model: they depend on an OCR engine and image files, and `extract_passwords` does not use them.
- Unicode character classes are approximate:
  - `IsSpace` is the exact set of characters `str.split()` treats as whitespace.
  - `IsWordChar` is exact up to U+00FF. Above that, it counts every non-whitespace character as a word character.
  - `Lower` maps the ASCII and Latin-1 capitals, the unaccented Greek capitals U+0391 to U+03AB and the Cyrillic capitals U+0400 to U+042F, one character to one character. It leaves unchanged the Latin Extended capitals (U+0100 to U+024F, for example `Ā`, `Ł`, `Ÿ`, and U+1E00 to U+1EFF), `İ` (U+0130), the accented Greek capitals (U+0386, U+0388 to U+038A, U+038C, U+038E, U+038F), the Cyrillic capitals from U+0460 on, the letterlike symbols Ohm, Kelvin and Angstrom (U+2126, U+212A, U+212B) and the capitals of other scripts, all of which `str.lower()` maps.
  - `str.lower()` applies the final-sigma rule (`Σ` at the end of a word becomes `ς`); `Lower` always gives `σ`.
  - `str.lower()` can lengthen a string (for example `"İ"`); the model does not.
  - `re.I` is modelled as equality after `Lower`. Python's extra case-folding pairs are not modelled. Under `re.I`, `s` also matches `ſ` (U+017F) and `i` also matches `ı` (U+0131), and `lower()` maps neither to the ASCII letter. `i` also matches `İ` (U+0130) through its simple lower case, while `lower()` turns `İ` into `i` followed by U+0307. `k` also matches the Kelvin sign (U+212A), which `lower()` does map to `k`; the model's `Lower` leaves it unchanged, so there the model misses the match in the `in` test and in `re.I` alike.
- ExtractProperties.KeyImpliesWordInLowerCase: holds for the model's `Lower`-based `re.I` only. In Python, the `in` test against `line.lower()` (assemblyline_v4_service/common/utils.py:76, 79) can hide an `re.I` match through the pairs above: `"paſſword:abc"` matches pattern 3, but `"password"` is not in its `lower()`, so the line is skipped (the model skips it too, finding no match at all). On the line `"password paſſword:abc"`, Python passes the test through `password`, and its split through `paſſword:` adds `""` and `"abc"`; the model finds no key and adds the whole line. In the same way, on the line `"parola d'ordine parola d'ordİne:abc"` Python passes the test through the first `parola d'ordine` and its split of word 6 through `d'ordİne:` adds `""` and `"abc"`, while the model finds no key and adds the whole line.
- Strings are sequences of Unicode scalar values. A Python `str` can also hold lone surrogates (for example `'\udc80'` from `surrogateescape` decoding); the model's `char` cannot, so such text is not modelled.
- PasswordPattern.Split: requires a line without `\n`, because `.` does not match a line break. Both call sites pass whitespace tokens or `\n`-separated lines, and `Utils.TokensAndLinesNewlineFree` proves that such a line never holds a break.
- Each password word is treated as a literal inside its pattern. None of the twelve words holds a regex metacharacter, so this matches the compiled regexes.
- Python sets iterate in an unspecified order. The loops pick their next element with `:|`, and the result is proved the same for every order.
- The two inner loops and the stripping loop are separate methods (`AddSplitsOfMatchingLines`, `AddStrippedForms`). The initial `set()` followed by two `update` calls is one union assignment.
