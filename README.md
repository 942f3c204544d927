# NER tagger for literary texts: word/label alignment

This project models the core of a small named-entity-recognition demo
(`app.py`). A token-classification engine returns entity spans over a text.
The application highlights those spans and exports a CSV that maps every word
of the text to an entity label.

The model covers:

- **Word segmentation** (`Segmentation`). The `while` loops of `build_csv`
  split the text into maximal runs of non-whitespace characters with half-open
  offsets `[start, end)`. `SegmentWords` is the loop. `Segment` is the function
  it computes. `IsSegmentation` is an independent, declarative description: words
  are in bounds, equal to their slice, free of whitespace, maximal, ordered, and
  they cover every non-whitespace index. Lemmas show that `Segment` satisfies
  this description and is the only sequence that does.
- **Label assignment** (`Labeling`). Nested loops with an early `break` give
  each word the group of the first entity, in the engine's order, that contains
  or overlaps it, or `"O"` when none does. `AssignLabels` is that loop and
  `LabelOf` is its specification. Lemmas characterise `LabelOf` as "first
  match wins". For non-empty words, which every segmented word is, this
  reduces to "first overlapping entity wins".
- **The exported table** (`Labeling.BuildCsv`). The header row `Word,Label` is
  followed by one row per word, in order. The row words, read in order, give
  back the text without its whitespace.
- **Request handling** (`App`). The blank-input guard of `run_ner` returns the
  hidden empty state and does not use the engine's answer. Otherwise the
  entities are projected into highlights, one for one and in order, and the
  table is built from the same list. `process_file` is modelled with the file's
  contents given as a value.
- **Whitespace** (`Whitespace`). Python's `str.isspace` is modelled as a total
  predicate. `str.strip` is modelled with the same predicate.

The inference engine is a parameter: a function from text to the list of
`Entity(group, start, end)`. Entity offsets are arbitrary integers, as the
source never validates them.

## Model

| member | source | states |
|---|---|---|
| Whitespace.LStrip | app.py:55 | the result is a suffix of the input, everything dropped is whitespace, and it does not start with whitespace |
| Whitespace.RStrip | app.py:55 | the result is a prefix of the input, everything dropped is whitespace, and it does not end with whitespace |
| Whitespace.StripEmptyIffAllSpace | app.py:55 | `text.strip()` is empty exactly when every character is whitespace |
| Whitespace.IsBlank | app.py:55 | the guard `not text or not text.strip()` holds exactly when the text has no non-whitespace character |
| Segmentation.WordEnd | app.py:24-26 | the inner scan stops at the first whitespace at or after its start, or at the end of the text, having passed only non-whitespace characters |
| Segmentation.SegmentWords | app.py:17-28 | the loop returns `Segment(text)`, which is a segmentation: each word satisfies `0 <= start < end <= len(text)`, equals `text[start:end]`, has no whitespace and is maximal; words are strictly increasing and disjoint; every non-whitespace index is covered |
| Segmentation.SegmentFromIsSegmentation | app.py:20-28 | from any index not inside a word, the scan's output is a segmentation of the rest of the text |
| Segmentation.SegmentationFromUnique | app.py:20-28 | from any index not inside a word, any segmentation of the rest of the text equals the scan's output |
| Segmentation.SegmentIsTheSegmentation | app.py:17-28 | `Segment(text)` is a segmentation, and a word list is a segmentation if and only if it equals `Segment(text)` |
| Segmentation.SegmentPartitionsText | app.py:20-28 | an index lies in some word if and only if its character is not whitespace, and it never lies in two words |
| Segmentation.BlankIffNoWords | app.py:20-28 | the text is empty or all whitespace if and only if it yields no words |
| Segmentation.SegmentReconstructsText | app.py:20-28 | the words concatenated in order equal the text with its whitespace characters removed |
| Labeling.LabelIsFirstMatch | app.py:33-40 | `build_csv` tests containment and then overlap for each entity in turn and stops at the first entity that passes either: the label is that entity's group, whatever later entities match; it is "O" when no entity matches |
| Labeling.ContainsImpliesOverlaps | app.py:35-39 | for a non-empty word, the containment test implies the overlap test, so passing either test is the same as overlapping |
| Labeling.LabelIsFirstOverlap | app.py:34-40 | for a non-empty word, the label is the group of the first entity with `start < e.end and end > e.start`, and "O" when none overlaps |
| Labeling.FirstMatchExamples | app.py:34-40 | with entities `[0,5) PER` then `[0,10) LOC`, the word `[0,5)` is labelled PER, and LOC when the order is swapped; `[5,12)` labels the word `[3,8)` by overlap; touching spans do not overlap |
| Labeling.Rows | app.py:31-41 | there is exactly one row per word |
| Labeling.AssignLabels | app.py:30-41 | one row per word, in order; row k holds word k's text and `LabelOf` word k's span |
| Labeling.BuildCsv | app.py:15-49 | the table is the header `("Word", "Label")` followed by exactly one row per segmented word, in order, with that word's text and label |
| Labeling.TableReconstructsText | app.py:31-49 | the data rows' words concatenated in order equal the text without its whitespace |
| App.Highlights | app.py:61-67 | there is one highlight per engine entity |
| App.HighlightsLoseNothing | app.py:61-67 | the engine's entity list is recovered exactly from the highlights, so nothing is sorted, merged or removed |
| App.ProjectHighlights | app.py:61-67 | the highlight list has the engine list's length and order; element k copies `entity_group` to `entity` and keeps `start` and `end` |
| App.RunNer | app.py:54-71 | blank text gives the hidden empty view and no CSV for every engine; other text gives the visible highlights of the engine's entities and the visible table built from the same entities |
| App.ProcessFile | app.py:74-81 | no file gives a visible "Please upload a .txt file." message; a blank file gives a visible "The uploaded file is empty." message; in both cases there is no CSV; otherwise the result equals `run_ner` on the contents |

## Left out

- Loading the model and calling it (app.py:9-13, app.py:58). This is a foreign ML library, so the engine's output is taken as a parameter (`App.Engine`).
- The temporary file and the CSV writer (app.py:44-47, app.py:50-51). The model keeps the logical row sequence only, not the quoting, the UTF-8 encoding or the unique file name.
- Reading the uploaded file (app.py:77-78). This is filesystem I/O, so `App.ProcessFile` receives the file's contents, or None when no file was given.
- The Gradio interface, theme, examples and markdown (app.py:95-137), and `COLOR_MAP` (app.py:84-92). These are presentation only.
- The entity `score` field. It is a float that the code never reads.
- Whitespace.IsSpace: it follows the set of code points for which Python's `str.isspace` is true. No proof depends on which characters these are. Python strings can hold lone surrogates, and Dafny's `char` cannot.
- App.RunNer: "the engine is not called on blank input" is stated as "the result on blank input does not depend on the engine". A pure model cannot observe the call itself.
