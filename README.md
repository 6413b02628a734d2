# Text normalisation of spreadsheet cells, in Dafny

This project models the cleaning pipeline of `run.py`. The pipeline takes a
table (a pandas DataFrame read from an Excel file). For every text cell of
every column it applies three string transforms and a final `strip()`, in
this order:

1. **Whitespace collapser**, `remove_extra_spaces`. Every maximal run of
   whitespace becomes one space, and the ends are stripped.
2. **Punctuation normaliser**, `adjust_punctuation`. A fixed class of 18
   full-width marks is mapped to half-width ASCII through
   `punctuation_map`. A mark is mapped only when it starts the text, or when
   the character before it *in the input* has a code point of at most 128.
3. **Spacing enforcer**, `add_space_after_punctuation`. After every mark of
   the same class, except the four curly quotes, a space is added unless the
   next input character is exactly `' '`.

Cells that are not `str` pass through untouched. The table keeps its
columns, their labels, their order and their lengths.

Files, one module each:

- `chars.dfy` (`Chars`): code points, Python's whitespace class, and the
  predicates the stages are specified with. `Normal` means no whitespace at
  either end, no whitespace but `' '`, and no two adjacent spaces.
- `whitespace.dfy` (`Whitespace`): `str.strip()`, the `\s+` substitution,
  and `remove_extra_spaces`.
- `punctuation.dfy` (`Punctuation`): the mark class, `punctuation_map`, the
  `replace_punctuation` callback, and `adjust_punctuation`.
- `spacing.dfy` (`Spacing`): the quote list, the `add_space` callback, and
  `add_space_after_punctuation`.
- `pipeline.dfy` (`Pipeline`): cells, columns, `Series.apply`, and
  `process_dataframe` as a method that rewrites an array of columns in place.

Modelling choices:

- Strings are `seq<char>`, and a `char` is a Unicode scalar value, so
  `ord` is `c as int`.
- `IsWs` is exactly the set of characters Python treats as whitespace. Both
  `\s` in a `str` pattern and `str.strip()` use this set: U+0009–U+000D,
  U+001C–U+001F, U+0020, U+0085, U+00A0, U+1680, U+2000–U+200A, U+2028,
  U+2029, U+202F, U+205F and U+3000.
- Each `re.sub` over a one-character class is modelled as a left-to-right
  scan. The scan is a function recursive on the position (`AdjustFrom`,
  `AddSpaceFrom`). At each match it calls the callback with the unmodified
  input and the match position, as `match.string` and `match.start()` do in
  the source.
- `punctuation_map` is kept as a string-keyed map, with its two-character
  key `"……"`. `.get` is `Get`. `HalfWidth` is an independent
  character-by-character reading of the map. `MapLookupIsHalfWidth` proves
  that the two agree on every mark. For `'…'` the lookup misses and the mark
  comes back unchanged.
- A table is an `array<Column>`, with `Column(name, cells)` and
  `Cell = Text(s) | Opaque(v)`. `Opaque` stands for any non-`str` value
  (number, date, boolean, NaN).

What the code does differs in places from what a reader of the function
names might expect. The model follows the code, and each point below is
proved:

- The script-sensitivity threshold is `ord > 128` (run.py:27), not `> 127`.
- The ellipsis is never rewritten to `"..."`. Its map key has two
  characters and cannot equal a one-character match (`EllipsisKept`).
- The spacing enforcer cannot be undone from its output: a mark with a
  space after it and one without come out the same
  (`SpacedAndUnspacedMeet`). The round trip is stated position by
  position against the input instead (`AddSpaceOutput`).
- Only the character `' '` counts as "already spaced" (run.py:39). A tab or
  an ideographic space after a mark still gets a space inserted.
- A mark at the very end of a text *does* get a space, because `''` differs
  from `' '` (`TrailingMarkSpaced`). In the table pipeline the final
  `strip()` removes that space again (`FinalStripDropsTrailingSpace`).
- The normaliser runs before the spacing enforcer. Marks it converts become
  ASCII, which is outside the class, so they never get a space
  (`AsciiNeverSpaced`). A cell `"Hello，  world！This"` therefore becomes
  `"Hello, world!This"`, not `"Hello, world! This"`. `LatinExample`
  proves this on the shorter cell `"x，y"`.
- The lookback reads the input, so a mark right after another mark is
  always kept (`MarkAfterMarkKept`). As a consequence the normaliser is not
  idempotent (`NotIdempotent`).

## Model

| member | source | states |
|---|---|---|
| `Chars.Ord` | run.py:27 | `ord` gives a Unicode code point: below 0x110000 and outside the surrogate range |
| `Chars.WhitespaceClass` | run.py:14 | the class `\s` and `strip()` use: tab to carriage return, space, no-break and ideographic space are whitespace; zero-width space and byte-order mark are not; nothing above U+3000 is |
| `Whitespace.Strip` | run.py:14 | `str.strip()`: the result is the contiguous slice of the input left after removing the leading and the trailing whitespace runs, so it has no whitespace at either end, and a text that already has none comes back unchanged |
| `Whitespace.StripKeeps` | run.py:14 | stripping removes whitespace only: the non-whitespace characters stay in order, and the "only spaces" and "no double space" shapes are kept |
| `Whitespace.CollapseRuns` | run.py:14 | `re.sub(r'\s+', ' ', text)`: the result holds no whitespace but `' '`, never two spaces in a row, and the same non-whitespace characters in the same order; it starts with a space exactly when the input starts with whitespace |
| `Whitespace.CollapseRunsAppend` | run.py:14 | a text ending in a non-whitespace character closes every run, so it and what follows collapse independently |
| `Whitespace.CollapseLeadingRun` | run.py:14 | a run of whitespace before a word becomes exactly one space |
| `Whitespace.CollapseRunsFixes` | run.py:14 | a text whose only whitespace is single spaces is left unchanged by the substitution |
| `Whitespace.RemoveExtraSpaces` | run.py:13-14 | the result never starts or ends with whitespace, contains no whitespace but `' '`, and never has two adjacent spaces |
| `Whitespace.RemoveExtraSpacesKeepsContent` | run.py:13-14 | every non-whitespace character is kept, in order; the result is empty exactly when the input is all whitespace |
| `Whitespace.RemoveExtraSpacesFixpoint` | run.py:13-14 | the texts left unchanged are exactly those of normal shape (both directions) |
| `Whitespace.RemoveExtraSpacesIdempotent` | run.py:13-14 | applying the collapser twice gives the same result as applying it once |
| `Whitespace.CollapseExample` | run.py:13-14 | `"Hi，  x！y"` becomes `"Hi， x！y"` |
| `Punctuation.Get` | run.py:29 | `dict.get(key, default)`: the stored value when the key is present, the default otherwise |
| `Punctuation.MarkClassMatchesMap` | run.py:18-31 | a character is in the regex class exactly when it is a one-character key of `punctuation_map` or the ellipsis; every one-character key maps to one character |
| `Punctuation.MapLookupIsHalfWidth` | run.py:18-22 | looking up a one-character match in `punctuation_map` with the match as default yields its half-width image; for `'…'` the key `"……"` is missed and `'…'` comes back |
| `Punctuation.MarkFacts` | run.py:18-31 | every mark has a code point above 128 and is not whitespace, nor is its image; every image except the ellipsis's is ASCII and differs from the mark |
| `Punctuation.ReplacePunctuation` | run.py:24-29 | the callback returns the half-width image when the match starts the text or the input character before it has `ord <= 128`, and the mark itself otherwise |
| `Punctuation.AdjustFrom` | run.py:31-32 | the `re.sub` scan from a position yields one character per input character, each the converted or unchanged one as the lookback into the input decides |
| `Punctuation.AdjustPunctuation` | run.py:17-32 | the normaliser preserves length |
| `Punctuation.AdjustPunctuationAt` | run.py:24-32 | output position i holds `HalfWidth(text[i])` if `text[i]` is a mark at index 0 or after a character with `ord <= 128` in the input, and `text[i]` otherwise |
| `Punctuation.ScriptSensitivity` | run.py:26-29 | a mark other than the ellipsis is changed if and only if it is at index 0 or the input character before it has `ord <= 128`; at index 0 it is always mapped |
| `Punctuation.MarkAfterMarkKept` | run.py:26-27 | a mark that follows another mark in the input is kept, whether or not that mark is converted |
| `Punctuation.EllipsisKept` | run.py:18-31 | `'…'` is always left as `'…'` |
| `Punctuation.AdjustKeepsOthers` | run.py:29-32 | characters outside the mark class are never altered; an output character is whitespace exactly when the input one is, and is then the same character |
| `Punctuation.AdjustKeepsNormal` | run.py:17-32 | the normaliser keeps the normal whitespace shape of its input |
| `Punctuation.DoubleCommaExample` | run.py:24-32 | in `"a，，"` only the first comma is converted |
| `Punctuation.NotIdempotent` | run.py:24-32 | a second pass over `"a，，"` changes the result of the first, so the normaliser is not idempotent |
| `Spacing.QuotesListed` | run.py:39 | the exclusion list holds exactly the four curly quotes; each of them is in the mark class and maps to an ASCII quote |
| `Spacing.AddSpace` | run.py:36-41 | the callback appends one `' '` to the mark exactly when the mark is not one of the four quotes and the next input character is not `' '`, including at the end of the text |
| `Spacing.AddSpaceFrom` | run.py:43-44 | the scan from a position grows the text by the number of spaces inserted from there on, and starts with the character at that position |
| `Spacing.AddSpaceAfterPunctuation` | run.py:35-44 | the output length is the input length plus the number of marks that get a space |
| `Spacing.AddSpaceSplit` | run.py:43-44 | the scan's output is what it emits for the positions before j, followed by what it emits from j on, for every j |
| `Spacing.AddSpaceAt` | run.py:35-44 | input character j sits at output position j plus the number of spaces inserted before it, so the input characters keep their order and are not altered; a space follows each mark that gets one |
| `Spacing.AddSpaceOutput` | run.py:35-44 | every output position holds either an input character at its place or a space inserted after a spaced mark, so deleting the inserted spaces gives back the input |
| `Spacing.SpacedAndUnspacedMeet` | run.py:36-44 | `"，"` and `"， "` give the same output, so the input cannot be recovered from the output alone |
| `Spacing.AddSpaceSpacesMarks` | run.py:38-40 | in the output every mark except the quotes is followed by a space |
| `Spacing.AddSpaceFixpoint` | run.py:35-44 | the texts left unchanged are exactly those where every non-quote mark is already followed by `' '` (both directions) |
| `Spacing.AddSpaceIdempotent` | run.py:35-44 | applying the enforcer twice gives the same result as applying it once |
| `Spacing.QuoteNeverSpaced` | run.py:39-41 | a curly quote never gets a space: it is followed in the output by what followed it in the input, or ends the output |
| `Spacing.AsciiNeverSpaced` | run.py:43 | a character with `ord <= 128`, ASCII punctuation included, never gets a space |
| `Spacing.TrailingMarkSpaced` | run.py:38-40 | a non-quote mark at the end of the text gets a trailing space |
| `Spacing.AddSpaceKeepsShape` | run.py:36-44 | on text whose only whitespace is single spaces, the enforcer adds no other whitespace and no double space |
| `Pipeline.CleanText` | run.py:49-52 | a text cell after collapse, adjust, space and strip is in normal shape: no whitespace at either end, none but `' '`, no double space |
| `Pipeline.StripSpacedText` | run.py:52 | on a text that does not start with whitespace, holds no whitespace but `' '` and no double space, the final `strip()` removes at most the one trailing space |
| `Pipeline.SpacedTextEnd` | run.py:51 | the spacing stage's output ends with a space exactly when its input ends with a mark that gets one |
| `Pipeline.FinalStripDropsTrailingSpace` | run.py:49-52 | the final strip removes exactly the space the spacing stage put after a mark that ends the text, and nothing else |
| `Pipeline.ApplyToCellKinds` | run.py:49-52 | the `isinstance(x, str)` lambda: a `str` cell stays a `str` cell holding the stage's result, any other cell is returned as it is |
| `Pipeline.ApplyToText` | run.py:49-52 | `Series.apply` gives a series of the same length |
| `Pipeline.CleanColumn` | run.py:48-52 | the four passes over a column keep its label and its length |
| `Pipeline.ApplyToTextAt` | run.py:49-52 | `apply` with the `isinstance(x, str)` lambda keeps the length of a column and treats each cell on its own: a text cell goes through the stage, any other cell is kept |
| `Pipeline.CleanColumnShape` | run.py:48-52 | a cleaned column keeps its label and length; each text cell becomes its cleaned text and every other cell is unchanged |
| `Pipeline.StagesCleanCells` | run.py:49-52 | the four `apply` passes over a column, in the source's order, give exactly the cleaned column |
| `Pipeline.ProcessDataFrame` | run.py:47-53 | the same table is returned; every column is replaced in place by its cleaned version; the number of columns, their order, labels and lengths are kept; each `str` cell becomes `strip(add_space(adjust(collapse(x))))`; every non-`str` cell is identical before and after |
| `Pipeline.LatinExample` | run.py:49-52 | `"x，y"` is cleaned to `"x,y"`: the converted comma gets no space |
| `Pipeline.MixedExample` | run.py:49-52 | `"你，y"` is cleaned to `"你， y"`: the comma after a Chinese character stays full-width and gets a space |

## Left out

- `main` (run.py:63-100) is left out: it is the Streamlit interface, the
  directory listing, Excel reading, writing the output file and the
  download button.
- `convert_df_to_excel` (run.py:56-60) is left out: it serialises through
  xlsxwriter and `BytesIO`, a foreign library.
- `get_current_time` (run.py:9-10) is left out: it reads the wall clock and
  only names the output file.
- Spelling and grammar correction are not modelled. `run.py` has no code
  for them; that variant of the pipeline would call external correctors.
- pandas types are reduced to the `isinstance(x, str)` split. A non-`str`
  cell is an opaque integer, and `str(x)` on a `str` is the identity.
- Python's regex engine is not modelled in general. Each of the three
  patterns is modelled by its effect: a recursive scan over `seq<char>`.
- `Series.apply` builds a new series, which the model treats as a value.
  The in-place part is the reassignment `df[col] = ...`, modelled as an
  array update. The model does not capture pandas index alignment or a
  column label that appears twice.
