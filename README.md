# AIP chart comparison: signal rules, native line diff and label shortening

This project models, in Dafny, three small pieces of the PDF comparison tool
for aeronautical information publication (AIP) charts:

- **The AIP signal rules** (`app/templates/app/static/app/aip_rules.py`).
  `extract_signals` pulls, for each key of a pattern table (MDA, DA, OCA, OCH,
  RVR, VIS, CAT, COURSE, DME, REMARKS), the values its pattern finds in a page
  text. `_findall` keeps the first capture group of each match, or the whole
  match when the pattern has no group. For REMARKS, it keeps the stripped
  400-character window after each heading. A key is kept only when it found
  something. `compare_signals` walks the nine minima keys. For each key, it
  compares the old and new value lists position by position, up to the
  longer list. Each differing position gives an OLD line and a NEW line. A
  missing or empty value is shown as an em dash. When both values hold a
  number, the NEW line ends with a numeric delta. A key appears in the result
  only when something changed.
- **The native line diff** (`diff_native/diff.js`, the body of `diffNative`).
  Both page texts are split on `"\n"` and compared line by line, up to the
  longer one. Every position whose lines differ (`!==`) gives a record with
  the 1-based line number and both lines. A missing line is shown as `""`.
- **`_short`** (`app/templates/app/static/app/app/diff_engine.py`). It
  collapses whitespace (`" ".join(s.split())`). A result still longer than
  the limit is cut and ended with an ellipsis.

Modules:

| module | file | models |
|---|---|---|
| `Wrappers` | `wrappers.dfy` | `Option` |
| `Padded` | `padded.dfy` | two lists read position by position up to the longer one, `None` past the end |
| `PyText` | `py_text.dfy` | Python's `str.isspace`, `str.strip` and slicing `s[a:b]` |
| `AipRules` | `aip_rules.dfy` | `_findall`, `extract_signals`, the numeric token of `compare_signals`, `compare_signals` |
| `NativeDiff` | `native_diff.dfy` | `split("\n")`, its inverse `join("\n")`, and the comparison loop of `diffNative` |
| `DiffEngine` | `diff_engine.dfy` | `str.split()`, `" ".join`, `_short` |

**How the loops are modelled.** Each loop of the source is a Dafny `method`
with a `while` or `for` loop: the loops of `extract_signals`, of the REMARKS
branch, of `compare_signals` (outer and inner) and of `diffNative`. Each
method is proved equal to a specification function. The promised
properties are lemmas about those functions.

**What is passed in as a parameter.**
- The regular-expression engine is `finditer`. Given a table key and a text,
  it returns that key's matches in order. Each match carries `m.end()`,
  `m.group(0)` and, when the pattern has groups, `m.group(1)`.
- `numeric_delta` is a parameter too.

The numeric token `\d+(?:\.\d+)?` that `compare_signals` looks for is
modelled concretely. Python dictionaries are Dafny maps.

## Model

| member | source | states |
|---|---|---|
| PyText.Strip | app/templates/app/static/app/aip_rules.py:33 | `block.strip()` is no longer than the block. It neither starts nor ends with whitespace. It is empty exactly when the block is all whitespace. |
| PyText.StripInfix | app/templates/app/static/app/aip_rules.py:33 | The stripped text is the infix of the block that starts after its leading whitespace. Every character outside that infix is whitespace. |
| PyText.Slice | app/templates/app/static/app/aip_rules.py:32 | `text[start:start+400]` clamps to the text. It is at most 400 characters, it is the infix from `start` when `start` is inside the text, and it is empty past the end. |
| AipRules.MapMatches | app/templates/app/static/app/aip_rules.py:23 | A comprehension over the matches gives one value per match, in match order. Value `i` is computed from match `i`. |
| AipRules.FindAll | app/templates/app/static/app/aip_rules.py:22-23 | `_findall` gives one value per match, in order. Value `i` is group 1 of match `i` when the pattern has groups, else the whole match. |
| AipRules.RemarkBlock | app/templates/app/static/app/aip_rules.py:31-33 | A remark block has at most 400 characters. It is empty when the heading ends at or past the end of the text. |
| AipRules.RemarkBlocks | app/templates/app/static/app/aip_rules.py:29-33 | There is one block per heading match. Block `i` is the stripped window after match `i`. |
| AipRules.CollectRemarks | app/templates/app/static/app/aip_rules.py:29-33 | The REMARKS loop returns exactly `RemarkBlocks` of the heading matches. |
| AipRules.KeySignals | app/templates/app/static/app/aip_rules.py:28-37 | For one key, the values collected are the remark blocks for REMARKS and `_findall` of the matches for any other key. |
| AipRules.CollectSignals | app/templates/app/static/app/aip_rules.py:26-40 | The key loop stores, for each visited key, its values exactly when they are non-empty. |
| AipRules.ExtractSignals | app/templates/app/static/app/aip_rules.py:25-40 | `extract_signals` returns the table-order fill of `ExtractedSignals`. |
| AipRules.KeepNonEmptyEntry | app/templates/app/static/app/aip_rules.py:34-39 | A key is in the filled dictionary iff it was visited and its values are non-empty. It then holds exactly those values. |
| AipRules.ExtractedSignalsShape | app/templates/app/static/app/aip_rules.py:25-40 | Only table keys appear, and never with an empty list. A table key is absent exactly when its pattern matched nothing. A value key holds `_findall` of its matches. REMARKS holds one block of at most 400 characters per heading, each the stripped window after its heading. |
| AipRules.NumberTokenShape | app/templates/app/static/app/aip_rules.py:74 | A number token is exactly what `\d+(?:\.\d+)?` matches whole: a run of digits that is the whole text, or digits, one '.', and digits to the end. |
| AipRules.NumberTokenExamples | app/templates/app/static/app/aip_rules.py:74 | "12.5" and "7" are number tokens; "1..2", "1.2.3" and "3." are not. |
| AipRules.NumberAt | app/templates/app/static/app/aip_rules.py:74-75 | At a digit, the match of `\d+(?:\.\d+)?` is a prefix of the text. It is a number token (digits, at most one inner dot between digits). No digit follows it. |
| AipRules.NumberAtLongest | app/templates/app/static/app/aip_rules.py:74-75 | The match is greedy: no longer prefix of the text is a number token. |
| AipRules.FirstNumber | app/templates/app/static/app/aip_rules.py:74-76 | `findall(...)[0]` is absent iff the value holds no digit. Otherwise it is the number token that starts at the first digit and is followed by no digit. |
| AipRules.FirstNumberLeftmostLongest | app/templates/app/static/app/aip_rules.py:74-76 | `findall(...)[0]` is the leftmost-longest match: no number token starts before the first digit, and none starting there is longer. |
| AipRules.Delta | app/templates/app/static/app/aip_rules.py:71-77 | The delta is non-empty only when both values are present and non-empty and both hold a number. In that case it is `numeric_delta` of the first numbers. |
| AipRules.KeyLinesLength | app/templates/app/static/app/aip_rules.py:66-79 | The inner loop emits exactly two lines per differing position. |
| AipRules.KeyLinesPrefix | app/templates/app/static/app/aip_rules.py:66-79 | Lines are only ever appended: the lines after fewer positions are a prefix of the lines after more. |
| AipRules.KeyLinesAt | app/templates/app/static/app/aip_rules.py:66-79 | For a differing position `i`, with `c` the number of earlier differing positions, line `2c` is `("OLD", a or "—")` and line `2c + 1` is `("NEW", (b or "—") + delta)`, with `a`, `b` the values at `i` (`None` past the end) and `delta` the numeric delta of `a` and `b`. So the pairs follow position order. |
| AipRules.DiffCountPositive | app/templates/app/static/app/aip_rules.py:65-70 | `changed` ends true exactly when some compared position differs. |
| Padded.PaddedEqual | app/templates/app/static/app/aip_rules.py:63-69 | Comparing two lists up to the longer length, a missing value reading as `None`, finds no difference exactly when the lists are equal. The same comparison is `diffNative`'s, with `undefined` for `None`. |
| AipRules.KeyPanelEmpty | app/templates/app/static/app/aip_rules.py:59-81 | A key's panel lines are empty exactly when its old and new lists are equal, an absent key counting as `[]`. |
| AipRules.CompareKey | app/templates/app/static/app/aip_rules.py:63-79 | The inner loop returns `KeyLines` over all padded positions. `changed` is true exactly when lines were emitted. |
| AipRules.ComparePanel | app/templates/app/static/app/aip_rules.py:59-79 | One outer turn: a key empty on both sides is skipped, any other key is compared. The lines are the key's panel, and `changed` holds iff there are lines. |
| AipRules.ComparePanels | app/templates/app/static/app/aip_rules.py:57-82 | The outer loop stores each visited key's lines exactly when they are non-empty. |
| AipRules.CompareSignals | app/templates/app/static/app/aip_rules.py:51-82 | `compare_signals` returns `ComparedSignals` over the nine minima keys. |
| AipRules.RemarksNotCompared | app/templates/app/static/app/aip_rules.py:56 | REMARKS never appears in a comparison. |
| AipRules.ComparedSignalsShape | app/templates/app/static/app/aip_rules.py:51-82 | A key appears iff it is a minima key whose old and new lists differ. Its lines are the OLD/NEW pairs of the differing positions. |
| NativeDiff.Split | diff_native/diff.js:18-19 | `split("\n")` always gives at least one piece. |
| NativeDiff.SplitCount | diff_native/diff.js:18-19 | `split("\n")` gives one piece more than the text has newlines. |
| NativeDiff.SplitNoNewline | diff_native/diff.js:18-19 | No piece contains a newline. |
| NativeDiff.SplitNewline | diff_native/diff.js:18-19 | A trailing newline adds one empty piece. |
| NativeDiff.SplitAppendPlain | diff_native/diff.js:18-19 | Text without a newline extends the last piece and adds no piece. |
| NativeDiff.JoinSplit | diff_native/diff.js:18-19 | Joining the pieces with `"\n"` gives back the text. |
| NativeDiff.SplitJoin | diff_native/diff.js:18-19 | Splitting a join of newline-free lines gives back the lines. |
| NativeDiff.SplitInjective | diff_native/diff.js:18-19 | Two texts have the same pieces iff they are the same text. |
| NativeDiff.LineDiffs | diff_native/diff.js:24-32 | There are at most as many records as compared positions. |
| NativeDiff.LineDiffsSound | diff_native/diff.js:24-32 | Every record names a 1-based line at which the pieces differ and carries both pieces, `undefined` shown as `""`. Records come in strictly increasing line order. |
| NativeDiff.LineDiffsComplete | diff_native/diff.js:24-32 | Every compared position whose pieces differ has a record. |
| NativeDiff.LineDiffsEmpty | diff_native/diff.js:24-32 | There is no record iff every compared position agrees. |
| NativeDiff.LineDiffsExtraEmpty | diff_native/diff.js:24-32 | Lines compared with the same lines plus one empty line give the single record `{line: n+1, old: "", new: ""}`. |
| NativeDiff.DiffNative | diff_native/diff.js:17-34 | The loop returns `NativeDiff` of the two texts. |
| NativeDiff.NativeDiffComplete | diff_native/diff.js:17-34 | Every line at which the two texts differ is reported. |
| NativeDiff.NativeDiffEmpty | diff_native/diff.js:17-34 | No record is returned iff the two texts are identical. |
| NativeDiff.TrailingNewline | diff_native/diff.js:17-34 | A text against itself plus `"\n"` gives one record at the new last line, both sides shown as `""`. |
| DiffEngine.WordLength | app/templates/app/static/app/app/diff_engine.py:14 | A word run is the maximal non-whitespace prefix. |
| DiffEngine.Words | app/templates/app/static/app/app/diff_engine.py:14 | Every piece of `s.split()` is non-empty and free of whitespace. |
| DiffEngine.WordsAroundSpace | app/templates/app/static/app/app/diff_engine.py:14 | `s.split()` breaks at every whitespace character: the words of `a + c + b`, `c` whitespace, are the words of `a` followed by the words of `b`. |
| DiffEngine.NormalizeAroundSpace | app/templates/app/static/app/app/diff_engine.py:14 | Collapsing `a + c + b`, `c` whitespace, gives the collapsed `a` and `b` joined by one space, or just one of them when the other has no words. |
| DiffEngine.JoinWordsAppend | app/templates/app/static/app/app/diff_engine.py:14 | Joining two non-empty word lists is joining each and putting one space between. |
| DiffEngine.WordsJoin | app/templates/app/static/app/app/diff_engine.py:14 | Splitting words joined with single spaces gives back the words. |
| DiffEngine.NormalizeKeepsText | app/templates/app/static/app/app/diff_engine.py:14 | Collapsing whitespace keeps every non-whitespace character, in order, and adds none. |
| DiffEngine.NormalizeIsNormalized | app/templates/app/static/app/app/diff_engine.py:14 | The collapsed text has no leading or trailing whitespace, only plain spaces, and never two in a row. |
| DiffEngine.NormalizedFixpoint | app/templates/app/static/app/app/diff_engine.py:14 | A text in that form is left unchanged. |
| DiffEngine.NormalizeIdempotent | app/templates/app/static/app/app/diff_engine.py:14 | Collapsing twice is collapsing once. |
| DiffEngine.ShortAsWrittenOverruns | app/templates/app/static/app/app/diff_engine.py:15 | As written, a cut text is `n - 1` characters plus the three-character mis-encoded ellipsis: `n + 2` long. |
| DiffEngine.ShortAsWrittenExample | app/templates/app/static/app/app/diff_engine.py:13-15 | 241 letters at the default limit 240 come out 242 characters long. |
| DiffEngine.ShortShape | app/templates/app/static/app/app/diff_engine.py:13-15 | For `n >= 1`, a text that fits comes back collapsed and whole, as written and as meant. A longer one is its first `n - 1` characters plus the ellipsis, exactly `n` long. The result is never longer than `n`. |
| DiffEngine.ShortNonPositive | app/templates/app/static/app/app/diff_engine.py:15 | For `n <= 0`, `s[: n-1]` counts from the end: a non-empty collapsed text loses its last `1 - n` characters (all of them when shorter) and gets the ellipsis, as written and as meant. |
| DiffEngine.ShortWithNormalized | app/templates/app/static/app/app/diff_engine.py:13-15 | For any limit, negative ones included, and any non-whitespace text appended after a cut, the shortened text is in collapsed form. |
| DiffEngine.ShortNormalized | app/templates/app/static/app/app/diff_engine.py:13-15 | The shortened text is in collapsed form, both as written (three-character ellipsis) and as meant. |
| DiffEngine.ShortWithIdempotent | app/templates/app/static/app/app/diff_engine.py:13-15 | For `n >= 1` and any non-whitespace text appended after a cut, shortening a shortened text changes nothing: a cut text either fits or is cut again at the same place. |
| DiffEngine.ShortIdempotent | app/templates/app/static/app/app/diff_engine.py:13-15 | Shortening a shortened text changes nothing, both as written and as meant. |

## Left out

- The regular expressions of the pattern table (aip_rules.py:4-20), including `re.I`, `re.S` and `\b`. They are a parameter, `finditer`, which gives each key's matches in order. The model does not check which texts a pattern matches.
- A match whose pattern has groups but whose group 1 did not take part, so that `m.group(1)` is `None`. A `Match` carries group 1 as present or absent, and an absent group 1 yields the whole match. None of the table's patterns has an optional first group.
- `numeric_delta` (aip_rules.py:42-49). It parses floats and formats their difference, and it is a parameter. Floating point is not modelled.
- `\d` in the numeric token is ASCII `0-9` only. Python also matches other Unicode decimal digits.
- Dictionary insertion order. Results are Dafny maps, so the order in which `extract_signals` and `compare_signals` insert keys (pattern-table order, minima-key order) is not captured. No caller of either function is part of this model.
- `str.isspace` follows the Unicode whitespace table as of Python 3. No normalisation or case folding is involved anywhere.
- Reading the PDF files and extracting their text with `pdfParse` (diff.js:7-15), `async`/`await`, and the `catch` branch that returns an error record (diff.js:35-37). The model starts from the two extracted texts.
- JavaScript strings are UTF-16 code units, while Dafny strings are sequences of Unicode scalar values. Splitting on `"\n"` and comparing with `!==` do not depend on the difference.
- The rest of diff_engine.py, from line 17 on (highlighting, fuzzy matching and page composition), plus app.py, server.js, app.js and compare_advanced.js. These are not part of this model.
- DiffEngine.ShortIdempotent: stated for `n >= 1` only, the default being 240. For `n <= 0` Python's negative-index slicing (modelled by `PyPrefix`) cuts a further character on each call, so shortening is not idempotent there.

## Findings

| source | as written | input that shows it | evidently intended | confidence | as-written member | corrected member |
|---|---|---|---|---|---|---|
| app/templates/app/static/app/app/diff_engine.py:15 | The ellipsis literal is the three characters U+00E2 U+20AC U+00A6: the UTF-8 bytes of "…" read back as Windows-1252. A cut text is therefore `n + 2` characters long, over the limit `n`. | 241 letters `a` with the default `n = 240` give 242 characters. | Append the single character U+2026, so the result is never longer than `n`. | not executed | DiffEngine.ShortAsWrittenOverruns | DiffEngine.ShortShape |
