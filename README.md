# Name-compatibility score by stroke counts

This project models the scoring core of a small Korean "name compatibility"
web application, `app.py`, and proves its properties in Dafny.

The scoring core has three parts:

- **Tables.** A constant table gives the stroke count of each compatibility
  jamo letter. Three index tables list the 19 initial consonants, the 21
  medial vowels and the 28 finals of precomposed Hangul syllables.
- **Stroke value of one character.** A character outside the syllable block
  U+AC00..U+D7A3 is worth 0. A syllable is split arithmetically into its
  three parts, as in section 3.12, "Conjoining Jamo Behavior", of The Unicode
  Standard: divide by 588, then by 28. The table entries of the parts are
  then added. The final is a string; each of its letters is looked up with a
  default of 0.
- **Score of two names.** The stroke values of the syllables of both names,
  in order, form a list. A name with no syllables contributes nothing. The
  list is folded: each pass replaces it by the sums of neighbours modulo 100,
  until at most two values remain. The score is the last digit of the first
  value times ten plus the last digit of the second. With a single value, it
  is that value modulo 100. With no values, it is 0.

Modules, one per file:

- `Jamo` holds the tables. The stroke table is a function from `char` to
  `Option<nat>`; `None` stands for a missing key. Lookup with a default is
  `StrokeOrZero`. `JAEMO_STROKES[x]` is modelled by `.value` at the places
  where a lemma proves that the entry exists.
- `Decomposer` holds the split into parts and the stroke value of a
  character. `StrokeValue` is the defining function. `SyllableStroke` is
  the program's own computation, with its loop over the letters of the final,
  and it is proved equal to `StrokeValue`.
- `Reducer` holds the filtering of the names, one folding pass, the fold and
  the score. `LoveScore` is the defining function.
  `CalculateLoveScore` is the program's `while` loop, which reassigns the
  list, and it is proved equal to `LoveScore`.
- `FoldClosedForm` is an independent description of the fold. After `k`
  passes, the value at `i` is, modulo 100, the sum of `Binom(k, j) * s[i + j]`.
  So both digits of the score are last digits of binomially weighted sums of
  the stroke values.

A cluster final such as 'ㄳ' or 'ㄺ' is one compatibility letter with no
entry in the stroke table, so it adds 0, not the strokes of its two
consonants. `Decomposer.FinalStroke` is 0 for the eleven cluster finals, and
`Decomposer.ClusterFinalAddsNothing` shows that '값' is worth exactly as much
as '가'.

## Model

| member | source | states |
|---|---|---|
| Jamo.JaemoStrokes | app.py:16-21 | Every entry of the stroke table is a count between 1 and 8. The 40 keys are the 19 consonants and 21 vowels of the table; any other character has no entry. |
| Jamo.StrokeOrZero | app.py:35 | The lookup with a default never exceeds 8, and it is 0 exactly when the letter has no entry. |
| Jamo.InitialEntries | app.py:16-23 | `InitialCompat`, the initial table, has 19 letters. Each has a stroke entry of 1 to 8, so the lookup of an initial never misses. |
| Jamo.MedialEntries | app.py:16-24 | `MedialCompat`, the medial table, has 21 letters. Each has a stroke entry of 1 to 5, so the lookup of a medial never misses. |
| Jamo.FinalShapes | app.py:25 | `FinalCompat`, the final table, has 28 entries. Only index 0 is the empty string; every other entry is a single letter. |
| Jamo.ClusterFinalEntries | app.py:16-25 | The eleven cluster finals (indices 3, 5, 6, 9-15, 18) are single letters with no stroke entry. |
| Jamo.ConsonantFinalEntries | app.py:16-25 | Every other non-empty final is a single letter with a stroke entry of 1 to 5. |
| Decomposer.IsSyllable | app.py:39 | A character lies in U+AC00..U+D7A3 exactly when its offset from U+AC00 is in 0..11171, the range that the guard at app.py:29 lets through. So the filter of the names and the guard of the stroke function accept the same characters. |
| Decomposer.Decompose | app.py:31-32 | For an offset in 0..11171, the two divisions give an initial below 19, a medial below 21 and a final below 28, with `code == initial*588 + medial*28 + final`. |
| Decomposer.DecomposeCompose | app.py:31-32 | Decomposing the offset of any valid triple of indices gives the triple back, so the split is exact and unique. |
| Decomposer.InitialStroke | app.py:33 | The stroke count of an initial is between 1 and 8. |
| Decomposer.MedialStroke | app.py:33 | The stroke count of a medial is between 1 and 5. |
| Decomposer.SumStrokes | app.py:34-35 | Adding up the letters of a final with a default of 0 gives 0 for the empty final and the lookup of the letter for a one-letter final; `n` letters add at most `8 * n`. |
| Decomposer.FinalCases | app.py:34-35 | For the empty final and the eleven clusters the letters add 0. For the other finals the one letter adds its table entry, between 1 and 5. |
| Decomposer.FinalStroke | app.py:34-35 | The final adds 0 for the empty final and for every cluster. Otherwise it adds the table entry of its letter, which is between 1 and 5. |
| Decomposer.StrokeValue | app.py:27-36 | A character outside U+AC00..U+D7A3 is worth 0. Every syllable is worth between 2 and 18. |
| Decomposer.StrokeValueOfParts | app.py:31-35 | The value of the syllable at offset `Compose(p)` is the sum of the strokes of the three parts of `p`. |
| Decomposer.LowestStrokeValue | app.py:27-36 | The bound 2 is reached, by '이'. |
| Decomposer.HighestStrokeValue | app.py:27-36 | The bound 18 is reached, by '뾀' (ㅃ 8 + ㅙ 5 + ㄹ 5). |
| Decomposer.ClusterFinalAddsNothing | app.py:34-35 | '값', whose final is the cluster ㅄ, is worth the same 4 as '가', which has no final. |
| Decomposer.SyllableStroke | app.py:27-36 | The loop over the letters of the final computes exactly `StrokeValue(ch)`. |
| Reducer.Syllables | app.py:39 | The kept characters are all syllables, and there are no more of them than characters in the input. |
| Reducer.Strokes | app.py:39 | There is one stroke value per kept syllable, and each value is between 2 and 18. |
| Reducer.PositionsAreTheSyllables | app.py:39 | The syllable positions are in bounds and strictly increasing. An index is a position exactly when its character is a syllable. |
| Reducer.SyllablesAtPositions | app.py:39 | The k-th kept character is the character at the k-th syllable position. |
| Reducer.StrokesFilterInOrder | app.py:39 | The k-th stroke value is the value of the k-th syllable of the input, in original order. Exactly the syllables are kept. |
| Reducer.PositionsExactly | app.py:39 | Any strictly increasing list of in-bounds indices that holds exactly the syllable indices is the list of syllable positions. |
| Reducer.NoStrokesIffNoSyllables | app.py:39-41 | The stroke list is empty exactly when no character is a syllable. |
| Reducer.SyllablesConcat | app.py:39 | Filtering `a + b` keeps the syllables of `a` and then those of `b`. |
| Reducer.StrokesConcat | app.py:39 | The stroke values of `name1 + name2` are those of `name1` followed by those of `name2`. |
| Reducer.AllSyllablesKept | app.py:39 | A string made only of syllables is kept whole. |
| Reducer.StrokesOfSyllables | app.py:39 | For an all-syllable string, the i-th stroke value is the value of the i-th character. |
| Reducer.NonSyllableIsDropped | app.py:39 | Inserting a non-syllable anywhere changes neither the kept syllables nor the stroke values; it is dropped, not counted as 0. |
| Reducer.FoldPass | app.py:43 | One pass over a non-empty list gives one value fewer, and every value is in 0..99. |
| Reducer.Fold | app.py:42-43 | From two or more values the fold ends with exactly two. One value is left only when there was one to begin with. After at least one pass, all values are below 100. |
| Reducer.FoldScore | app.py:40-48 | The score of any stroke list is in 0..99. |
| Reducer.LoveScore | app.py:38-48 | The score of any two names is in 0..99. |
| Reducer.CalculateLoveScore | app.py:38-48 | The `while` loop returns exactly `LoveScore`. Its invariant keeps the list non-empty, keeps its values below 100 and keeps what the fold reaches unchanged. It ends with one or two values, so the fall-through `return 0` is never reached. |
| Reducer.NoSyllablesScoreZero | app.py:40-41 | Two names with no syllables score 0. |
| Reducer.SingleValueScore | app.py:46-47 | A single value below 100 is its own score. |
| Reducer.SingleSyllableStrokes | app.py:39 | A string whose only syllable is at `p` has the single stroke value of that syllable. |
| Reducer.OneSyllableScore | app.py:39-47 | With exactly one syllable in both names together, the score is its stroke value. |
| Reducer.TwoSyllableScore | app.py:39-45 | With exactly two syllables, no pass runs. The score is the last digit of the first value followed by the last digit of the second. |
| Reducer.ScoreIgnoresNonSyllable | app.py:39 | Inserting a non-syllable anywhere in the first name leaves the score unchanged. |
| FoldClosedForm.BinomAbove | app.py:42-43 | A binomial coefficient above its row is 0. |
| FoldClosedForm.PartialPascal | app.py:42-43 | Pascal's rule carries over to the partial weighted sums. |
| FoldClosedForm.WeightedStep | app.py:43 | The weighted sum after `k + 1` passes is the sum of the two neighbouring weighted sums after `k`, which is what one pass does. |
| FoldClosedForm.Iterate | app.py:42-43 | `k` passes over at least `k` values leave `|s| - k` of them. |
| FoldClosedForm.IterateShift | app.py:42-43 | A first pass followed by `k` more is `k + 1` passes. |
| FoldClosedForm.FoldIsIterate | app.py:42-43 | From two or more values, the fold makes exactly `|s| - 2` passes. |
| FoldClosedForm.IterateClosedForm | app.py:42-43 | After `k` passes, the value at `i`, modulo 100, is the binomially weighted sum of `s[i..i+k]`. |
| FoldClosedForm.FoldDigits | app.py:42-45 | The two digits taken from the folded pair are the last digits of the two weighted sums of row `|s| - 2`. |
| FoldClosedForm.ScoreClosedForm | app.py:40-45 | For a stroke list of length `n >= 2`, the score is `(W0 % 10) * 10 + W1 % 10`. Here `W0` and `W1` weight `t[0..n-2]` and `t[1..n-1]` by row `n - 2` of Pascal's triangle. |

## Left out

- Loading the Streamlit secrets and the API key (app.py:1-13): configuration and I/O.
- The user interface (app.py:50-64, 81-84). This covers the text inputs, the `.strip()` calls, the button, the check that both names are non-empty and all-Hangul (app.py:57-60), and the rendering of the score. It is presentation. The model deals with the score function itself, which accepts any strings.
- The `score >= 50` branch with the DALL·E image generation and its error handling (app.py:65-80): a call to an external network service.
- Characters are Dafny `char` values compared by code point. The source needs no other Unicode behaviour, such as normalisation.
- Python integers are unbounded, like Dafny's `int`, and `divmod` is applied only to non-negative offsets. So there is no overflow to model, and Dafny's division agrees with Python's there.
- The stroke table is modelled as a total function returning `Option`, not as a dictionary value. The `KeyError` a missing key would raise cannot happen in the source: the lemmas prove that every initial and medial letter has an entry.
- Reducer.FoldPass: the contract states the length and range of the result. The element formula `(s[i] + s[i + 1]) % 100` is the function's own definition, and `FoldClosedForm` builds on it rather than restating it.
- FoldClosedForm.ScoreClosedForm is stated for the stroke list. `LoveScore(name1, name2)` is by definition `FoldScore(Strokes(name1 + name2))`, so no separate name-level form is stated.
