# Publication merge: normalization, duplicate detection and filtering

A Dafny model of the deduplication core of `scripts/publications/merge.py`. The
script reads every BibTeX file of the group and writes one merged bibliography.
Between parsing and writing it does the following:

- It reorders the parsed entries so that books come first and `@incollection`
  chapters come last.
- It drops entries with no usable year, incomplete `@misc` entries, entries
  older than `MIN_YEAR`, and the keys listed in `MANUAL_DUPLICATES`.
- It keeps an entry only if it is not a duplicate of any entry kept before it.

Two entries are duplicates in either of two cases. A chapter and the book it
belongs to are duplicates. Any other pair is a duplicate when the mean of its
author, title and venue similarities reaches the threshold. All similarities
are taken on normalized text: LaTeX braces and backslashes removed, whitespace
runs collapsed, lower-cased, stripped.

The model has six modules. Each operation is a pure function, except the
deduplication loop and its inner scan, which are methods.

- **`Wrappers`** holds the `Option` type used for partial results.
- **`Text`** models `normalize_text`, `str.split()` and `in` on strings.
- **`Bib`** holds the parsed entry and `get_venue_field`.
- **`Matching`** models `calculate_similarity`, `is_incollection_of_book` and
  `are_entries_duplicate`.
- **`Ordering`** models `entry_priority` and the stable sort. The sort is
  stated for any three-valued key.
- **`Merge`** holds the constants and the filter order. It defines the
  reference fold `Accepted`, with `Tallied` for the counters, and the loop
  methods that compute the same thing.

`difflib.SequenceMatcher(...).ratio()` is a parameter, `ratio`, of subset type
`Matching.Ratio`. The only fact assumed of it is that its value lies in [0, 1].
It is not assumed to be symmetric, and the ratio of two empty strings is left
open.

`int(year_str)` is a parameter too: a partial parser `parseYear` that returns
`None` where Python raises `ValueError`.

The merge loop takes its duplicate decision from the `Config` it is given.
`Merge.BibConfig` builds the configuration the script uses. It uses
`MIN_YEAR`, `MANUAL_DUPLICATES` and `are_entries_duplicate` at the given
threshold.

## Model

| member | source | states |
|---|---|---|
| Text.RemoveLatex | scripts/publications/merge.py:65 | the result contains no `\`, `{` or `}`; every character comes from the input; a string without them is returned unchanged |
| Text.RemoveLatexCounts | scripts/publications/merge.py:65 | exactly the `\`, `{` and `}` characters are deleted: every other character occurs as often in the result as in the input |
| Text.RemoveLatexConcat | scripts/publications/merge.py:65 | the deletion distributes over concatenation, so the surviving characters keep their order |
| Text.CollapseSpaces | scripts/publications/merge.py:66 | every whitespace character of the result is a plain space, never two in a row; empty exactly when the input is; starts with whitespace exactly when the input does; every other character comes from the input |
| Text.Strip | scripts/publications/merge.py:67 | the result is a contiguous piece of the input with only whitespace outside it; it neither starts nor ends with whitespace; it is empty exactly when the input is all whitespace |
| Text.Normalize | scripts/publications/merge.py:60-67 | the result has no LaTeX characters, no ASCII capitals, only plain single spaces and no whitespace at either end; it is empty exactly when the input consists only of whitespace and `\{}` (so an empty input gives "") |
| Text.NormalizeFixpoint | scripts/publications/merge.py:60-67 | a string already of normalized shape is returned unchanged |
| Text.NormalizeIdempotent | scripts/publications/merge.py:60-67 | normalizing twice gives the same result as normalizing once |
| Text.NormalizeImage | scripts/publications/merge.py:60-67 | the fixed points of normalization are exactly the strings of normalized shape |
| Text.Words | scripts/publications/merge.py:127 | `split()` yields only non-empty words, none containing whitespace |
| Text.CollapseKeepsLastSpace | scripts/publications/merge.py:66 | a whitespace run at the end of the text is replaced by one space, not removed: the collapsed text ends with whitespace exactly when the input does |
| Text.WordsOfCollapse | scripts/publications/merge.py:66 | collapsing whitespace runs keeps every word of the text, in order |
| Text.WordsOfStrip | scripts/publications/merge.py:67 | `strip()` keeps every word of the text, in order |
| Text.LowerCollapse | scripts/publications/merge.py:66-67 | lower-casing and collapsing whitespace can be done in either order |
| Text.NormalizeIsJoinOfWords | scripts/publications/merge.py:60-67 | the result is the words of the LaTeX-free input, lower-cased, in order, joined by single spaces (`' '.join(t.lower().split())`) |
| Text.WordsJoinRoundTrip | scripts/publications/merge.py:127 | joining the words of a normalized string with single spaces gives the string back |
| Text.WordsAreSubstrings | scripts/publications/merge.py:127 | every word of a string occurs in that string |
| Text.SubstringTransitive | scripts/publications/merge.py:130 | the `in` test on strings is transitive |
| Bib.FirstNonEmpty | scripts/publications/merge.py:86 | the `a or b or c` chains: empty exactly when every listed field is empty or missing; otherwise the first non-empty field, with every field before it empty |
| Bib.Venue | scripts/publications/merge.py:75-97 | the venue is the first non-empty field of the row the lower-cased type selects in the venue table; empty exactly when all of that row's fields are empty or missing |
| Bib.VenueTable | scripts/publications/merge.py:81-97 | an article's venue is its journal even when a booktitle is present; a book's is its publisher, else its series; misc and preprint try journal, howpublished, note; unknown types try journal, booktitle, publisher |
| Bib.VenueIgnoresTypeCase | scripts/publications/merge.py:77 | two entries whose types differ only in case, with the same fields, have the same venue |
| Matching.Similarity | scripts/publications/merge.py:69-73 | the score lies in [0, 1] and is exactly 0 when either raw string is empty |
| Matching.SimilarityGuardIsOnRawText | scripts/publications/merge.py:71-73 | the emptiness guard looks at the raw text: any two non-empty fields made only of whitespace and `\{}` (two `{}` fields, say) are scored by the oracle on two empty normalized strings, not given 0 |
| Matching.SimilarityOfNormalized | scripts/publications/merge.py:69-73 | scoring two strings that are already normalized gives the same score as scoring the originals, when neither normalizes to the empty string |
| Matching.LongWords | scripts/publications/merge.py:127 | keeps the words longer than three characters and only those |
| Matching.LongWordsCounts | scripts/publications/merge.py:127 | each word longer than three characters is kept as often as it occurs, every other word never |
| Matching.LongWordsConcat | scripts/publications/merge.py:127 | the filter distributes over concatenation, so kept words stay in their original order |
| Matching.CountContained | scripts/publications/merge.py:130 | counts at most one per word, and counts every word exactly when every word occurs in the text |
| Matching.CountContainedConcat | scripts/publications/merge.py:130 | the count adds up over consecutive pieces of the word list, so each position counts on its own |
| Matching.CountAtLeastTwo | scripts/publications/merge.py:130 | two distinct positions whose words occur make the count at least 2, a repeated word counting twice |
| Matching.ContainedWitnesses | scripts/publications/merge.py:130 | a count of at least 2 names two distinct positions whose words occur |
| Matching.IsIncollectionOfBook | scripts/publications/merge.py:99-137 | (the word rule and the fallback are stated by the lemmas below) false unless the first entry is `incollection` and the second is `book` (case-insensitive); true when the author score (book editor if no author) is above 0.7 and the years are equal and non-empty; otherwise true only when both normalized titles are non-empty |
| Matching.ChapterWithoutBooktitle | scripts/publications/merge.py:101-124 | a chapter whose normalized booktitle is empty belongs to a book exactly when the type and author-and-year rules hold |
| Matching.FallbackNeedsHighRatio | scripts/publications/merge.py:132-137 | when neither the author rule nor the word rule holds, the relation holds only if the oracle scores the two normalized titles above 0.8 |
| Matching.FallbackSuffices | scripts/publications/merge.py:114-137 | conversely, a chapter and a book whose normalized titles are both non-empty and scored above 0.8 are related |
| Matching.WordRuleWitnesses | scripts/publications/merge.py:126-133 | the `min(2, n)` rule holds only with the title's one significant word occurring, or two distinct positions of significant words occurring, in the booktitle |
| Matching.WordRuleFromWitnesses | scripts/publications/merge.py:126-133 | conversely, such a word or two such positions make the rule hold |
| Matching.WordRuleMakesChapter | scripts/publications/merge.py:114-133 | a chapter belongs to a book when two distinct significant words of the book's normalized title, or its only one, occur in the chapter's normalized booktitle, whatever the authors and years say |
| Matching.WordsOfContainedTitle | scripts/publications/merge.py:127-130 | every significant word of a title occurs in any booktitle that contains the whole title |
| Matching.ContainedTitleMakesChapter | scripts/publications/merge.py:118-133 | a chapter whose normalized booktitle contains the book's normalized title, one with a word longer than three characters, belongs to the book |
| Matching.AverageSimilarity | scripts/publications/merge.py:150-169 | the mean of the author, title and venue scores lies in [0, 1] |
| Matching.AreDuplicate | scripts/publications/merge.py:139-171 | duplicate exactly when the first is a chapter of the second, or the second of the first, or the mean score reaches the threshold |
| Matching.DuplicateSymmetric | scripts/publications/merge.py:139-171 | with a symmetric oracle the decision does not depend on argument order |
| Matching.EmptyFieldsNeverMatch | scripts/publications/merge.py:150-171 | two entries that share no author, title or venue text (one side empty on each) and are not book and chapter are never duplicates at a positive threshold |
| Matching.UnreachableThreshold | scripts/publications/merge.py:139-171 | with a threshold above 1 only the book/chapter relation makes a duplicate |
| Ordering.Priority | scripts/publications/merge.py:203-210 | 0 exactly for books, 2 exactly for incollection entries, 1 otherwise, on the lower-cased type |
| Ordering.StableSort | scripts/publications/merge.py:212 | the result is a permutation of the input, sorted by the key, and keeps each key group in input order |
| Ordering.StableSortIsUnique | scripts/publications/merge.py:212 | any sorted arrangement that keeps each key group in input order is the stable sort |
| Ordering.Reorder | scripts/publications/merge.py:201-212 | the reordered entries are a permutation of the input, sorted by priority, with equal-priority entries in input order |
| Ordering.BooksFirstChaptersLast | scripts/publications/merge.py:201-212 | after the reorder every book precedes every other entry and every incollection entry follows every other entry |
| Merge.BibConfig | scripts/publications/merge.py:11-18 | the script's settings: minimum year 2017, one manual duplicate key, and `are_entries_duplicate` at the given threshold as the duplicate test |
| Merge.ClassifyMeaning | scripts/publications/merge.py:221-263 | the first-match-wins filter order: no year, then incomplete `@misc`, then invalid year, then too old, then manual duplicate; an entry passes exactly when it is not an incomplete `@misc`, its year parses to at least the minimum, and its key is not in the table |
| Merge.MiscFilterBeforeYear | scripts/publications/merge.py:229-257 | an incomplete `@misc` entry with a year is counted as incomplete even when its year is invalid or too old |
| Merge.ManualKeyIsDropped | scripts/publications/merge.py:259-263 | a key in the manual table is never a candidate, and counts as a manual duplicate exactly when its entry passed the earlier filters |
| Merge.CountSum | scripts/publications/merge.py:221-263 | every entry receives exactly one verdict |
| Merge.CountStableSort | scripts/publications/merge.py:212 | sorting does not change how many entries receive each verdict |
| Merge.TalliedCounts | scripts/publications/merge.py:215-276 | each entry moves exactly one counter or joins the kept list: the no-year counter counts missing and invalid years, and duplicates plus kept entries equal manual duplicates plus candidates |
| Merge.AcceptedEmbeds | scripts/publications/merge.py:268-276 | the kept entries sit at increasing positions of the input |
| Merge.AcceptedSubsequence | scripts/publications/merge.py:268-276 | the kept list is a subsequence of the input |
| Merge.AcceptedAreCandidates | scripts/publications/merge.py:221-263 | every kept entry passed all the filters |
| Merge.KeptEntriesPassFilters | scripts/publications/merge.py:221-263 | every kept entry has a year that parses to at least the minimum, is not an incomplete `@misc`, and has a key outside the manual table |
| Merge.AcceptedNoDuplicatePairs | scripts/publications/merge.py:265-276 | no kept entry is a duplicate of one kept before it |
| Merge.AcceptedAtMostCandidates | scripts/publications/merge.py:265-276 | no more entries are kept than pass the filters |
| Merge.AcceptedGrows | scripts/publications/merge.py:275-276 | the kept list only grows by appending: what is kept after a prefix is a prefix of what is kept at the end |
| Merge.AcceptedCoversCandidates | scripts/publications/merge.py:265-276 | every candidate is either kept or a duplicate of a kept entry; more precisely, it is kept right after the entries kept before it, or it duplicates one of those earlier kept entries |
| Merge.KeptInPriorityOrder | scripts/publications/merge.py:212-276 | the kept entries are in priority order |
| Merge.KeptPairsAreDistinct | scripts/publications/merge.py:265-273 | with the script's settings, `are_entries_duplicate(later, earlier)` is false for every pair of kept entries |
| Merge.NoChapterBesideItsBook | scripts/publications/merge.py:141-149 | with the script's settings, a chapter and the book it belongs to are never both kept |
| Merge.ManualKeyNeverKept | scripts/publications/merge.py:11-13 | with the script's settings the manually listed key never reaches the output |
| Merge.FindFirstDuplicate | scripts/publications/merge.py:266-273 | returns the first kept entry the new entry duplicates, or none exactly when it duplicates no kept entry |
| Merge.Visit | scripts/publications/merge.py:221-276 | one loop pass does what the reference fold and counter step prescribe for the entry |
| Merge.Deduplicate | scripts/publications/merge.py:215-276 | the loop computes the reference kept list and counters |
| Merge.MergeEntries | scripts/publications/merge.py:199-276 | the kept entries and the header counters: the total is the input length; kept plus all counters equals the total; the filter counters count their verdicts over the input; the kept list is a priority-ordered subsequence of the reordered input whose entries all pass the filters and contain no duplicate pair |

## Left out

- Reading the `.bib` files and extracting entries with the regular expression (`parse_bib_file`, lines 22-58, and lines 173-197) are not modelled. The entries arrive as an already parsed sequence of `Bib.Entry` values.
- Writing the output file (lines 277-288) and the `print` progress messages are not modelled. Their content is the kept list and the `Merge.Tally` counters.
- The `__main__` block (lines 299-310) is not modelled. The threshold it passes, 0.7 (also the default of `merge_bib_files`, line 173), is the `threshold` argument of `Merge.BibConfig`, which the model leaves free.
- `difflib.SequenceMatcher.ratio` is a parameter, not a model, because it is library code outside this repository. Nothing about it is assumed beyond its range.
- Python's `int()` on the year is a parameter. Its handling of whitespace, signs and underscores is library behaviour.
- Floating-point arithmetic is replaced by exact `real` arithmetic. A score that sits exactly on a threshold could compare differently in floating point.
- Bib.Kind: lower-cases the `@type` in ASCII only (`Text.Lower`). A type written with a non-ASCII capital that Python's `str.lower` maps to an ASCII letter (KELVIN SIGN U+212A for `K`, say, which `\w` matches) selects `book`, `incollection`, `misc` and the other type rows in the script but the fallback row here, in `Bib.Venue`, `Ordering.Priority`, `Matching.IsIncollectionOfBook` and the incomplete-`@misc` test.
- Text.Normalize: lower-cases ASCII letters only (`Text.Lower`). Python's `str.lower` also maps non-ASCII capitals and can lengthen a string, which this model does not do.
- Matching.Similarity: does not state that the non-empty case equals the oracle on the two normalized strings in its contract. That is its definition, and `Matching.SimilarityGuardIsOnRawText` and `Matching.FallbackNeedsHighRatio` state the consequences.
