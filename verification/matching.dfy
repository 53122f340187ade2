/** Pairwise comparison of entries: the text similarity score, the
    "chapter belongs to this book" relation (`is_incollection_of_book`) and the
    duplicate decision (`are_entries_duplicate`). */
module Matching {
  import opened Text
  import opened Bib

  /** The string-similarity oracle, `SequenceMatcher(None, a, b).ratio()`.
      Nothing is assumed of it beyond returning a value in [0, 1]: it need
      not be symmetric, and the ratio of two empty strings is left open. */
  type Ratio = f: (string, string) -> real | forall a: string, b: string :: 0.0 <= f(a, b) <= 1.0
    witness (a: string, b: string) => 0.0

  /** Author similarity above which, with equal years, a chapter belongs to a book. */
  const AuthorThreshold: real := 0.7

  /** Title similarity above which a chapter belongs to a book. */
  const TitleThreshold: real := 0.8

  /** Book-title words must be longer than this to count as significant. */
  const SignificantLength: nat := 3

  /** `calculate_similarity`: zero when either raw string is empty, otherwise
      the oracle applied to the two normalized strings. */
  function Similarity(ratio: Ratio, a: string, b: string): (r: real)
    ensures 0.0 <= r <= 1.0
    ensures a == "" || b == "" ==> r == 0.0
  {
    if a == "" || b == "" then 0.0 else ratio(Normalize(a), Normalize(b))
  }

  /** The emptiness test is made on the raw strings: a field such as "{}" is
      not empty, so two fields made only of braces, backslashes and whitespace
      are scored by the oracle on two empty normalized strings rather than
      being given 0. */
  lemma SimilarityGuardIsOnRawText(ratio: Ratio, a: string, b: string)
    requires a != "" && b != "" && Blank(a) && Blank(b)
    ensures Similarity(ratio, a, b) == ratio("", "")
  {
  }

  /** Scoring strings that are already normalized gives the same result as
      scoring the originals. */
  lemma SimilarityOfNormalized(ratio: Ratio, a: string, b: string)
    requires Normalize(a) != "" && Normalize(b) != ""
    ensures Similarity(ratio, Normalize(a), Normalize(b)) == Similarity(ratio, a, b)
  {
    NormalizeIdempotent(a);
    NormalizeIdempotent(b);
  }

  // ---------------------------------------------------------------------------
  // Book / chapter relation
  // ---------------------------------------------------------------------------

  /** First rule: the chapter's author resembles the book's author (its editor
      when the author is missing) and both carry the same non-empty year. */
  predicate AuthorsAndYearAgree(ratio: Ratio, chapter: Entry, book: Entry) {
    var authorSim := Similarity(ratio, Field(chapter, "author"), Or(Field(book, "author"), Field(book, "editor")));
    var chapterYear := Field(chapter, "year");
    var bookYear := Field(book, "year");
    var sameYear := if chapterYear != "" && bookYear != "" then chapterYear == bookYear else false;
    authorSim > AuthorThreshold && sameYear
  }

  /** `[w for w in ws if len(w) > 3]` */
  function LongWords(ws: seq<string>): (r: seq<string>)
    ensures |r| <= |ws|
    ensures forall w :: w in r ==> w in ws && |w| > SignificantLength
    ensures forall w :: w in ws && |w| > SignificantLength ==> w in r
  {
    if ws == [] then []
    else if |ws[0]| > SignificantLength then [ws[0]] + LongWords(ws[1..])
    else LongWords(ws[1..])
  }

  /** Each word is kept as often as it occurs, provided it is long enough. */
  lemma {:induction false} LongWordsCounts(ws: seq<string>)
    ensures forall w :: multiset(LongWords(ws))[w] == if |w| > SignificantLength then multiset(ws)[w] else 0
    decreases |ws|
  {
    if ws != [] {
      LongWordsCounts(ws[1..]);
      assert ws == [ws[0]] + ws[1..];
    }
  }

  /** The filter keeps the words in their original order. */
  lemma {:induction false} LongWordsConcat(a: seq<string>, b: seq<string>)
    ensures LongWords(a + b) == LongWords(a) + LongWords(b)
    decreases |a|
  {
    if a != [] {
      assert (a + b)[0] == a[0];
      assert (a + b)[1..] == a[1..] + b;
      LongWordsConcat(a[1..], b);
    } else {
      assert a + b == b;
    }
  }

  /** The significant words of a (normalized) book title. */
  function SignificantWords(title: string): seq<string> {
    LongWords(Words(title))
  }

  /** `sum(1 for w in ws if w in s)`: how many of the words occur in `s`,
      repeated words counted each time. */
  function CountContained(ws: seq<string>, s: string): (n: nat)
    ensures n <= |ws|
    ensures n == |ws| <==> forall k :: 0 <= k < |ws| ==> IsSubstring(ws[k], s)
  {
    if ws == [] then 0
    else
      var rest := CountContained(ws[1..], s);
      assert forall k :: 1 <= k < |ws| ==> ws[k] == ws[1..][k - 1];
      (if IsSubstring(ws[0], s) then 1 else 0) + rest
  }

  /** The count adds up over consecutive pieces of the word list. */
  lemma {:induction false} CountContainedConcat(a: seq<string>, b: seq<string>, s: string)
    ensures CountContained(a + b, s) == CountContained(a, s) + CountContained(b, s)
    decreases |a|
  {
    if a != [] {
      assert (a + b)[0] == a[0];
      assert (a + b)[1..] == a[1..] + b;
      CountContainedConcat(a[1..], b, s);
    } else {
      assert a + b == b;
    }
  }

  /** One word that occurs makes the count at least 1. */
  lemma {:induction false} CountAtLeastOne(ws: seq<string>, s: string, j: nat)
    requires j < |ws| && IsSubstring(ws[j], s)
    ensures CountContained(ws, s) >= 1
    decreases j
  {
    if j > 0 {
      CountAtLeastOne(ws[1..], s, j - 1);
    }
  }

  /** Two positions whose words occur make the count at least 2. */
  lemma {:induction false} CountAtLeastTwo(ws: seq<string>, s: string, i: nat, j: nat)
    requires i < j < |ws| && IsSubstring(ws[i], s) && IsSubstring(ws[j], s)
    ensures CountContained(ws, s) >= 2
    decreases i
  {
    if i == 0 {
      CountAtLeastOne(ws[1..], s, j - 1);
    } else {
      CountAtLeastTwo(ws[1..], s, i - 1, j - 1);
    }
  }

  /** A positive count names a position whose word occurs. */
  lemma {:induction false} ContainedWitness(ws: seq<string>, s: string) returns (j: nat)
    requires CountContained(ws, s) >= 1
    ensures j < |ws| && IsSubstring(ws[j], s)
    decreases |ws|
  {
    if IsSubstring(ws[0], s) {
      j := 0;
    } else {
      var j' := ContainedWitness(ws[1..], s);
      j := j' + 1;
    }
  }

  /** A count of at least 2 names two distinct positions whose words occur. */
  lemma {:induction false} ContainedWitnesses(ws: seq<string>, s: string) returns (i: nat, j: nat)
    requires CountContained(ws, s) >= 2
    ensures i < j < |ws| && IsSubstring(ws[i], s) && IsSubstring(ws[j], s)
    decreases |ws|
  {
    if IsSubstring(ws[0], s) {
      var j' := ContainedWitness(ws[1..], s);
      i, j := 0, j' + 1;
    } else {
      var i', j' := ContainedWitnesses(ws[1..], s);
      i, j := i' + 1, j' + 1;
    }
  }

  /** Second rule: at least `min(2, n)` of the book title's `n > 0`
      significant words occur in the chapter's booktitle. */
  predicate TitleWordsOverlap(booktitle: string, title: string) {
    var ws := SignificantWords(title);
    var needed := if |ws| < 2 then |ws| else 2;
    |ws| > 0 && CountContained(ws, booktitle) >= needed
  }

  /** `is_incollection_of_book(chapter, book)` */
  function IsIncollectionOfBook(ratio: Ratio, chapter: Entry, book: Entry): (r: bool)
    ensures r ==> Kind(chapter) == "incollection" && Kind(book) == "book"
    ensures Kind(chapter) == "incollection" && Kind(book) == "book" && AuthorsAndYearAgree(ratio, chapter, book) ==> r
    ensures r && !AuthorsAndYearAgree(ratio, chapter, book) ==>
              Normalize(Field(chapter, "booktitle")) != "" && Normalize(Field(book, "title")) != ""
  {
    if Kind(chapter) != "incollection" || Kind(book) != "book" then false
    else if AuthorsAndYearAgree(ratio, chapter, book) then true
    else
      var booktitle := Normalize(Field(chapter, "booktitle"));
      var title := Normalize(Field(book, "title"));
      if booktitle == "" || title == "" then false
      else if TitleWordsOverlap(booktitle, title) then true
      else Similarity(ratio, booktitle, title) > TitleThreshold
  }

  /** A chapter without a usable booktitle belongs to a book exactly when the
      author-and-year rule says so. */
  lemma ChapterWithoutBooktitle(ratio: Ratio, chapter: Entry, book: Entry)
    requires Normalize(Field(chapter, "booktitle")) == ""
    ensures IsIncollectionOfBook(ratio, chapter, book) <==>
              Kind(chapter) == "incollection" && Kind(book) == "book" && AuthorsAndYearAgree(ratio, chapter, book)
  {
  }

  /** When neither the author rule nor the word rule applies, the relation
      holds only if the oracle scores the normalized booktitle against the
      normalized book title above 0.8. */
  lemma FallbackNeedsHighRatio(ratio: Ratio, chapter: Entry, book: Entry)
    requires IsIncollectionOfBook(ratio, chapter, book)
    requires !AuthorsAndYearAgree(ratio, chapter, book)
    requires !TitleWordsOverlap(Normalize(Field(chapter, "booktitle")), Normalize(Field(book, "title")))
    ensures ratio(Normalize(Field(chapter, "booktitle")), Normalize(Field(book, "title"))) > TitleThreshold
  {
    var booktitle := Normalize(Field(chapter, "booktitle"));
    var title := Normalize(Field(book, "title"));
    NormalizeIdempotent(Field(chapter, "booktitle"));
    NormalizeIdempotent(Field(book, "title"));
    assert Similarity(ratio, booktitle, title) == ratio(booktitle, title);
  }

  /** The word rule, read as positions: it holds exactly when the title has
      one significant word and it occurs in the booktitle, or two distinct
      positions of its significant words whose words both occur there. */
  lemma WordRuleWitnesses(booktitle: string, title: string) returns (i: nat, j: nat)
    requires TitleWordsOverlap(booktitle, title)
    ensures i <= j < |SignificantWords(title)|
    ensures i < j || |SignificantWords(title)| == 1
    ensures IsSubstring(SignificantWords(title)[i], booktitle) && IsSubstring(SignificantWords(title)[j], booktitle)
  {
    var ws := SignificantWords(title);
    if |ws| == 1 {
      i := ContainedWitness(ws, booktitle);
      j := i;
    } else {
      i, j := ContainedWitnesses(ws, booktitle);
    }
  }

  /** Conversely, such positions make the word rule hold. */
  lemma WordRuleFromWitnesses(booktitle: string, title: string, i: nat, j: nat)
    requires i <= j < |SignificantWords(title)|
    requires i < j || |SignificantWords(title)| == 1
    requires IsSubstring(SignificantWords(title)[i], booktitle) && IsSubstring(SignificantWords(title)[j], booktitle)
    ensures TitleWordsOverlap(booktitle, title)
  {
    var ws := SignificantWords(title);
    if i < j {
      CountAtLeastTwo(ws, booktitle, i, j);
    } else {
      CountAtLeastOne(ws, booktitle, j);
    }
  }

  /** `min(2, n)`: a chapter belongs to a book when two distinct significant
      words of the book's normalized title (or its only one) occur in the
      chapter's normalized booktitle, whatever the authors and years say. */
  lemma WordRuleMakesChapter(ratio: Ratio, chapter: Entry, book: Entry, i: nat, j: nat)
    requires Kind(chapter) == "incollection" && Kind(book) == "book"
    requires i <= j < |SignificantWords(Normalize(Field(book, "title")))|
    requires i < j || |SignificantWords(Normalize(Field(book, "title")))| == 1
    requires IsSubstring(SignificantWords(Normalize(Field(book, "title")))[i], Normalize(Field(chapter, "booktitle")))
    requires IsSubstring(SignificantWords(Normalize(Field(book, "title")))[j], Normalize(Field(chapter, "booktitle")))
    ensures IsIncollectionOfBook(ratio, chapter, book)
  {
    var booktitle := Normalize(Field(chapter, "booktitle"));
    var title := Normalize(Field(book, "title"));
    var ws := SignificantWords(title);
    assert ws[i] in Words(title);
    assert Words("") == [];
    assert booktitle != "" by {
      var k :| 0 <= k <= |booktitle| && IsPrefix(ws[i], booktitle[k..]);
    }
    WordRuleFromWitnesses(booktitle, title, i, j);
  }

  /** The fallback, in the other direction: a chapter and a book with non-empty
      normalized titles that the oracle scores above 0.8 are related. */
  lemma FallbackSuffices(ratio: Ratio, chapter: Entry, book: Entry)
    requires Kind(chapter) == "incollection" && Kind(book) == "book"
    requires Normalize(Field(chapter, "booktitle")) != "" && Normalize(Field(book, "title")) != ""
    requires ratio(Normalize(Field(chapter, "booktitle")), Normalize(Field(book, "title"))) > TitleThreshold
    ensures IsIncollectionOfBook(ratio, chapter, book)
  {
    NormalizeIdempotent(Field(chapter, "booktitle"));
    NormalizeIdempotent(Field(book, "title"));
  }

  /** Every significant word of a title occurs in any text containing the
      title. */
  lemma WordsOfContainedTitle(title: string, booktitle: string)
    requires IsSubstring(title, booktitle)
    ensures CountContained(SignificantWords(title), booktitle) == |SignificantWords(title)|
  {
    var ws := SignificantWords(title);
    WordsAreSubstrings(title);
    forall k | 0 <= k < |ws|
      ensures IsSubstring(ws[k], booktitle)
    {
      assert ws[k] in Words(title);
      SubstringTransitive(ws[k], title, booktitle);
    }
  }

  /** A title with a significant word is not empty, nor is any text containing it. */
  lemma TitleWithWordsNotEmpty(title: string, booktitle: string)
    requires IsSubstring(title, booktitle)
    requires |SignificantWords(title)| > 0
    ensures title != "" && booktitle != ""
  {
    assert SignificantWords(title)[0] in Words(title);
    assert Words("") == [];
  }

  /** A chapter whose normalized booktitle contains the book's whole
      normalized title belongs to the book, provided the title has a word
      longer than three characters. */
  lemma ContainedTitleMakesChapter(ratio: Ratio, chapter: Entry, book: Entry)
    requires Kind(chapter) == "incollection" && Kind(book) == "book"
    requires IsSubstring(Normalize(Field(book, "title")), Normalize(Field(chapter, "booktitle")))
    requires |SignificantWords(Normalize(Field(book, "title")))| > 0
    ensures IsIncollectionOfBook(ratio, chapter, book)
  {
    var booktitle := Normalize(Field(chapter, "booktitle"));
    var title := Normalize(Field(book, "title"));
    TitleWithWordsNotEmpty(title, booktitle);
    WordsOfContainedTitle(title, booktitle);
    assert TitleWordsOverlap(booktitle, title);
  }

  // ---------------------------------------------------------------------------
  // Duplicate decision
  // ---------------------------------------------------------------------------

  /** The unweighted mean of the author, title and venue similarities. */
  function AverageSimilarity(ratio: Ratio, e1: Entry, e2: Entry): (avg: real)
    ensures 0.0 <= avg <= 1.0
  {
    var authorSim := Similarity(ratio, Field(e1, "author"), Field(e2, "author"));
    var titleSim := Similarity(ratio, Field(e1, "title"), Field(e2, "title"));
    var venueSim := Similarity(ratio, Venue(e1), Venue(e2));
    (authorSim + titleSim + venueSim) / 3.0
  }

  /** `are_entries_duplicate(e1, e2, threshold)`: a chapter and the book it
      belongs to, in either order, are duplicates; any other pair is when its
      mean similarity reaches the threshold. */
  function AreDuplicate(ratio: Ratio, threshold: real, e1: Entry, e2: Entry): (r: bool)
    ensures r <==> || IsIncollectionOfBook(ratio, e1, e2)
                   || IsIncollectionOfBook(ratio, e2, e1)
                   || AverageSimilarity(ratio, e1, e2) >= threshold
  {
    var linked :=
      if Kind(e1) == "book" && Kind(e2) == "incollection" then IsIncollectionOfBook(ratio, e2, e1)
      else if Kind(e1) == "incollection" && Kind(e2) == "book" then IsIncollectionOfBook(ratio, e1, e2)
      else false;
    linked || AverageSimilarity(ratio, e1, e2) >= threshold
  }

  ghost predicate Symmetric(ratio: Ratio) {
    forall a, b :: ratio(a, b) == ratio(b, a)
  }

  /** With a symmetric oracle the duplicate decision does not depend on the
      order of its two arguments. */
  lemma DuplicateSymmetric(ratio: Ratio, threshold: real, e1: Entry, e2: Entry)
    requires Symmetric(ratio)
    ensures AreDuplicate(ratio, threshold, e1, e2) == AreDuplicate(ratio, threshold, e2, e1)
  {
    assert AverageSimilarity(ratio, e1, e2) == AverageSimilarity(ratio, e2, e1);
  }

  /** Two entries that share no author, title or venue text (on each axis at
      least one side is empty) are never duplicates by score: empty fields
      score 0, not 1. */
  lemma EmptyFieldsNeverMatch(ratio: Ratio, threshold: real, e1: Entry, e2: Entry)
    requires threshold > 0.0
    requires Field(e1, "author") == "" || Field(e2, "author") == ""
    requires Field(e1, "title") == "" || Field(e2, "title") == ""
    requires Venue(e1) == "" || Venue(e2) == ""
    requires !IsIncollectionOfBook(ratio, e1, e2) && !IsIncollectionOfBook(ratio, e2, e1)
    ensures !AreDuplicate(ratio, threshold, e1, e2)
  {
  }

  /** A threshold above 1 can only be met through the book/chapter relation. */
  lemma UnreachableThreshold(ratio: Ratio, threshold: real, e1: Entry, e2: Entry)
    requires threshold > 1.0
    ensures AreDuplicate(ratio, threshold, e1, e2) <==>
              IsIncollectionOfBook(ratio, e1, e2) || IsIncollectionOfBook(ratio, e2, e1)
  {
  }
}
