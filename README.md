# Hindi spell checker: a verified model of its correction core

The application (`app.py`) checks Hindi text against a word list, called the corpus. It
splits the text into lines and each line into whitespace-separated words. A word that is
in the corpus is kept as it is. A word that is not gets replaced by a note,
`At Line: L Word No. W: word -> suggestion`. The suggestion is the corpus entry at the
smallest Levenshtein distance from the word. The words of a line go back together with
single spaces, and the lines with line feeds.

This project models the three functions that do this work, in the imperative form they
have in the source. Each one is a method whose loops are proved against a pure
specification function, and the properties the program relies on are proved about those
functions.

- `outcomes.dfy` (`Outcomes`): a `Result` type for a value or a raised exception, and an
  `Option` type for a Python variable that may still be unbound.
- `text.dfy` (`Text`): the Python string operations the core uses:
  - `str.split('\n')` (`SplitOn`), `str.strip()` (`Strip`) and `str.split()` (`Words`),
    using the character set of Python's `str.isspace`;
  - `sep.join` (`JoinWith`);
  - decimal rendering of an integer in an f-string (`NatToString`).
- `edit_distance.dfy` (`EditDistance`): `levenshtein_distance`. `Dist` and `Lev` are the
  recursive definition. `LevenshteinDistance` is the table-filling method over an
  `array2<nat>`, with nested loops in the source's order: column outer, row inner.
- `spell_check.dfy` (`SpellCheck`): `get_correct_word`, the linear nearest-entry scan
  from the sentinel 100, and `process_input_text`, the line-by-line annotation.
- `examples.dfy` (`Examples`): three end-to-end examples on short Hindi texts
  (`OneLineExample`, `EmptyCorpusExample` and `TwoLineExample`), proved about the
  specification functions, with the literal-free lemma `KnownThenUnknown` that the
  two-line example rests on.

`levenshtein_distance` reads its answer through the loop variables `row` and `col`, so
the function behaves differently when one of its strings is empty:

- If both strings are non-empty, the loops leave `row == len(s)` and `col == len(t)`, and
  the result is the bottom-right cell, the Levenshtein distance.
- If `s` is empty, the inner loop never runs. If `t` is empty, the outer loop never runs.
  Either way `row` is never bound, and the return raises `UnboundLocalError`.

The textbook definition gives the length of the other string for an empty argument; the
code raises instead. The model follows the code: `LevenshteinDistance` returns
`Err(UnboundLocalError("row"))` exactly when `s` or `t` is empty. The error then travels
up the call chain:

- `get_correct_word` raises exactly when the corpus is non-empty and either the word or
  some entry is empty. There is no early exit, so an empty entry anywhere raises.
- `process_input_text` raises exactly when the corpus holds an empty entry and some word
  of the text is missing from it. Words from `str.split()` are never empty.

The reference function `Lev` is the textbook definition, so it does give the length of
the other string for an empty argument, as its own contract states.

## Model

| member | source | states |
|---|---|---|
| EditDistance.Cost | app.py:60-63 | the substitution cost is 0 exactly when the two characters are equal, and 1 otherwise |
| EditDistance.Min3 | app.py:64-66 | `min` of the three candidates: no larger than any of them and equal to one of them |
| EditDistance.Dist | app.py:50-66 | definition: cell `(i, j)` is `j` in row 0, `i` in column 0, and otherwise the minimum of the cell above plus 1, the cell to the left plus 1, and the diagonal cell plus the substitution cost |
| EditDistance.Lev | app.py:58-68 | definition: the bottom-right cell `Dist(s, t, len(s), len(t))`; its contract gives the length of the other string when one is empty |
| EditDistance.NewTable | app.py:48-56 | the new table is `(len(s)+1) × (len(t)+1)`, with `dist[i][0] == i` down column 0, `dist[0][j] == j` along row 0, and 0 in every other cell |
| EditDistance.CellStep | app.py:60-66 | the minimum of deletion, insertion and substitution (cost 0 exactly when the characters are equal) over the three neighbours is the recursive distance of the cell |
| EditDistance.FillColumn | app.py:59-66 | one pass of the inner loop makes every cell of column `col` equal to the distance of those prefixes, changes no other column, and leaves `row` bound to `len(s)` unless `s` is empty |
| EditDistance.LevenshteinDistance | app.py:47-68 | raises `UnboundLocalError` on `row` exactly when `s` or `t` is empty; otherwise returns the Levenshtein distance `Lev(s, t)` |
| EditDistance.DistOfPrefixes | app.py:58-66 | table cell `(i, j)` is the Levenshtein distance of the prefixes `s[:i]` and `t[:j]` |
| EditDistance.LevZeroIff | app.py:47-68 | the distance is 0 if and only if the two strings are equal |
| EditDistance.LevSymmetric | app.py:47-68 | the distance is symmetric in its two arguments |
| EditDistance.LevBounds | app.py:47-68 | the distance lies between the difference of the lengths and the larger length |
| EditDistance.LevDisjoint | app.py:47-68 | strings with no character in common are at the larger of their lengths |
| SpellCheck.SearchRaises | app.py:74-75 | definition: the scan calls `levenshtein_distance` with an empty argument, and so raises, exactly when the corpus is non-empty and the word or some entry is empty |
| SpellCheck.FirstNearest | app.py:74-78 | for a non-empty corpus, the index chosen is at the minimum distance from the word, and every earlier entry is strictly farther |
| SpellCheck.Suggestion | app.py:72-79 | the suggestion is either `""` or an element of the corpus |
| SpellCheck.BestDistance | app.py:72-77 | definition: the value `min_dis` holds after scanning some entries, the smallest distance among them when it is below 100 and 100 otherwise |
| SpellCheck.ScanStep | app.py:76-78 | one step of the scan replaces the best entry and distance exactly when the new entry is strictly closer than the best so far |
| SpellCheck.CorrectWord | app.py:71-79 | what `get_correct_word` returns or raises: `UnboundLocalError` on `row` when the corpus is non-empty and the word or some entry is empty, otherwise the suggestion, which is `""` or an entry, and `""` for an empty corpus |
| SpellCheck.GetCorrectWord | app.py:71-79 | raises exactly when the corpus is non-empty and the word or some entry is empty; otherwise returns `Suggestion(word, corpus)` |
| SpellCheck.SuggestionIsFirstNearest | app.py:72-79 | when some entry is closer than 100, the result is the earliest entry at the minimum distance; when none is, including for an empty corpus, it is `""` |
| SpellCheck.FirstNearestUnique | app.py:74-78 | the earliest entry at the minimum distance is unique, so ties can be broken only one way |
| SpellCheck.SuggestionIs | app.py:74-78 | any entry that is the earliest at the minimum distance, and closer than 100, is the result |
| SpellCheck.SuggestionOfUnknownWord | app.py:89-90 | a suggestion made for a word missing from the corpus is at distance at least 1 from it |
| SpellCheck.LineWords | app.py:86 | definition: `line.strip().split()`, the words of the line in order |
| SpellCheck.Annotation | app.py:91 | definition: the note `"At Line: " + L + " Word No. " + W + ": " + word + " -> " + suggestion`, with `L` and `W` written in decimal |
| SpellCheck.CorrectedToken | app.py:89-93 | definition: the word itself when the corpus holds it, otherwise its note with the suggestion of the search |
| SpellCheck.CorrectedTokens | app.py:87-93 | definition: the list `corrected_line` after the inner loop, the corrected token of each word of the line in order, with word numbers from 1 |
| SpellCheck.CorrectedLines | app.py:83-94 | definition: the list `corrected_text` after the outer loop, each line's corrected tokens joined by single spaces, with line numbers from 1 |
| SpellCheck.CorrectedTokensSnoc | app.py:88-93 | appending the next word of a line appends its corrected token (the word or its note, numbered from 1) |
| SpellCheck.CorrectedLinesSnoc | app.py:85-94 | appending the next line appends its corrected tokens joined by single spaces |
| SpellCheck.KnownLineSnoc | app.py:85-93 | a further line whose words are all in the corpus adds no word that would start a search |
| SpellCheck.ProcessText | app.py:82-95 | definition: the lines of `str.split('\n')` handed to `ProcessLines` |
| SpellCheck.ProcessLines | app.py:85-95 | definition: `UnboundLocalError` on `row` when the corpus holds `""` and some word is missing from it, since that search reaches the empty entry; otherwise the corrected lines joined by line feeds |
| SpellCheck.ProcessInputText | app.py:82-95 | raises exactly when the corpus holds `""` and some word is missing from it; otherwise returns the corrected lines (each word kept or annotated with its 1-based line and word numbers) joined by line feeds |
| SpellCheck.ProcessTextEmpty | app.py:84-95 | the empty text gives the empty output whatever the corpus |
| SpellCheck.WordHasNoNewline | app.py:86 | a word of `str.split()` holds no line feed |
| SpellCheck.CorrectedTokenHasNoNewline | app.py:89-93 | a kept word or a note holds no line feed when no corpus entry does |
| SpellCheck.CorrectedLineHasNoNewline | app.py:86-94 | a corrected line holds no line feed when no corpus entry does |
| SpellCheck.ProcessTextLines | app.py:84-95 | the output has exactly as many line-feed-separated lines as the input, and output line `i` is the corrected input line `i` |
| SpellCheck.ProcessLinesLines | app.py:94-95 | splitting the joined corrected lines on line feeds gives those lines back |
| SpellCheck.OneWordPerLine | app.py:84-94 | each line consisting of a single word becomes that word's token, numbered as word 1 of its line |
| SpellCheck.CorrectedTokensAllKnown | app.py:88-93 | a line whose words are all in the corpus gets exactly those words back |
| SpellCheck.ProcessLinesAllKnown | app.py:84-95 | a text with no missing word never raises and only has its whitespace normalised: words rejoined by single spaces, line feeds kept |
| SpellCheck.ProcessTextFixpoint | app.py:84-95 | a correctly spelled text whose words are already separated by single spaces comes back unchanged |
| Text.IsWhitespace | app.py:86 | definition: the characters Python's `str.isspace` accepts, which `strip()` and `split()` remove |
| Text.JoinWith | app.py:94-95 | definition: `sep.join(parts)`, the parts with one separator between each two |
| Text.IndexOf | app.py:84 | the first position of the separator, or the length when it does not occur |
| Text.SplitOn | app.py:84 | `str.split(sep)` gives at least one piece, no piece holds the separator, and joining the pieces with the separator gives the string back |
| Text.SplitOnJoin | app.py:84 | splitting a join of separator-free pieces gives the pieces back |
| Text.SplitOnAbsent | app.py:84 | a string without the separator splits into itself alone |
| Text.JoinWithout | app.py:94-95 | joining pieces that lack a character, with a different separator, gives a string that lacks it |
| Text.TrimStart | app.py:86 | the leading whitespace is dropped: what was removed is all whitespace and what is left does not start with whitespace |
| Text.TrimEnd | app.py:86 | the trailing whitespace is dropped: what was removed is all whitespace and what is left does not end with whitespace |
| Text.TrimStartIsSuffix | app.py:86 | trimming the start leaves a suffix of the string |
| Text.TrimEndIsPrefix | app.py:86 | trimming the end leaves a prefix of the string |
| Text.Strip | app.py:86 | `strip()` leaves a string that neither starts nor ends with whitespace, and is no longer than the input |
| Text.WordEnd | app.py:86 | the first word of a string ends at the first whitespace character |
| Text.Words | app.py:86 | every piece of `str.split()` is a non-empty run of non-whitespace characters; with `WordsOfBlank`, `WordsOfWord` and `WordsAtWhitespace` this fixes the words of every string |
| Text.WordsOfBlank | app.py:86 | an all-whitespace string has no words |
| Text.WordsOfTrimStart | app.py:86 | leading whitespace does not change the words |
| Text.WordsOfTrailingBlank | app.py:86 | trailing whitespace does not change the words |
| Text.WordsOfStrip | app.py:86 | `strip()` before `split()` does not change the words |
| Text.WordsOfLeadingBlank | app.py:86 | leading whitespace of any length does not change the words |
| Text.WordEndBeforeWhitespace | app.py:86 | the first word of a text ends at the same place when a whitespace character and more text follow it |
| Text.WordsAtWhitespace | app.py:86 | a whitespace character splits the text into the words before it followed by the words after it |
| Text.WordsAtBlank | app.py:86 | a run of whitespace of any length between two texts separates their words, so repeated whitespace counts as one separator |
| Text.WordsOfWord | app.py:86 | a word alone splits into itself |
| Text.WordsOfJoin | app.py:86-94 | splitting words joined by single spaces gives the words back |
| Text.StripWordsOfWord | app.py:86 | a line that is a single word splits into that word |
| Text.DigitChar | app.py:91 | the digit character of `d` stands for `d` |
| Text.NatToString | app.py:91 | a decimal rendering is at least one digit long, and starts with `0` exactly for 0 |
| Text.DecimalValueOfNatToString | app.py:91 | reading the decimal rendering of `n` back gives `n` |
| Examples.OneLineExample | app.py:82-95 | with the corpus `["घर","पानी","आम"]`, the text `"घर पनी"` gives `"घर At Line: 1 Word No. 2: पनी -> पानी"` |
| Examples.EmptyCorpusExample | app.py:71-95 | with an empty corpus, `"कोई"` gives `"At Line: 1 Word No. 1: कोई -> "` |
| Examples.TwoLineExample | app.py:82-95 | with the corpus `["घर","पानी"]`, `"घर\nपनी"` gives `"घर\nAt Line: 2 Word No. 1: पनी -> पानी"` |
| Examples.KnownThenUnknown | app.py:82-95 | two one-word lines, the first known and the second not, give the first word, a line feed, and the note for word 1 of line 2 |
| Examples.OneMissingVowelSign | app.py:47-68 | `"पनी"` is at distance 1 from `"पानी"` |
| Examples.NearestToMisspelling | app.py:71-79 | against `["घर","पानी","आम"]` the suggestion for `"पनी"` is `"पानी"` |
| Examples.NearestOfTwo | app.py:71-79 | against `["घर","पानी"]` the suggestion for `"पनी"` is `"पानी"` |
| Examples.TwoWordLine | app.py:84-86 | `"घर पनी"` is one line of the two words `"घर"` and `"पनी"` |
| Examples.TwoOneWordLines | app.py:84 | `"घर\nपनी"` is the two lines `"घर"` and `"पनी"` |

One more end-to-end example, in which the empty text gives the empty output, is
`SpellCheck.ProcessTextEmpty`.

## Left out

- The Streamlit user interface, the text download and every `st.*` call (app.py:8-12, 98-190): presentation only.
- `extract_text_from_pdf` (app.py:15-25): a call into the PyMuPDF library.
- `translate_text` (app.py:28-38): a network call to a translation service.
- `load_corpus` (app.py:41-44) and the upload folder handling (app.py:137-164): file input and output. Every operation takes the corpus as a `seq<string>` parameter. A corpus read from a file holds one stripped line per entry, so an entry may be `""`, which is the case that raises.
- The cost of the brute-force scan and the repeated corpus loads: performance is not modelled.
- Python's object identity and the in-place appends to `corrected_line` and `corrected_text`: the lists the method builds are modelled as sequences that are reassigned.
- SpellCheck.ProcessTextLines: requires that no corpus entry holds a line feed. Without that, a suggestion could add lines to the output. A corpus read line by line never has one.
- `levenshtein_distance` on an empty string: the model raises like the code rather than returning the other string's length, as the textbook definition would.
