/** The body of `merge_bib_files` once every file has been parsed: the
    priority reorder, the four filters, the manual duplicate table and the
    first-match duplicate scan against the entries kept so far, with the
    counters written into the output header. */
module Merge {
  import opened Wrappers
  import opened Bib
  import opened Matching
  import opened Ordering

  /** `MIN_YEAR`: entries published before this year are dropped. */
  const MinYear: int := 2017

  /** `MANUAL_DUPLICATES`: citation key of a known duplicate to the key of the
      entry kept in its place. */
  const ManualDuplicates: map<string, string> := map["Son2025TTCT2C" := "nl.trung2022:book:TWR"]

  /** Everything the loop depends on besides the entries: the year bound, the
      manual table, the year parser (`int(year_str)`, `None` where Python
      raises `ValueError`) and the pairwise duplicate decision, which the loop
      calls with the new entry first and a kept entry second. */
  datatype Config = Config(minYear: int, manual: map<string, string>,
                           parseYear: string -> Option<int>,
                           duplicate: (Entry, Entry) -> bool)

  /** The configuration `merge_bib_files` runs with: `MIN_YEAR`,
      `MANUAL_DUPLICATES` and `are_entries_duplicate` at the given threshold,
      for a given similarity oracle and year parser. */
  function BibConfig(ratio: Ratio, threshold: real, parseYear: string -> Option<int>): (cfg: Config)
    ensures cfg.minYear == 2017
    ensures cfg.manual.Keys == {"Son2025TTCT2C"}
    ensures cfg.parseYear == parseYear
    ensures forall a, b :: cfg.duplicate(a, b) == AreDuplicate(ratio, threshold, a, b)
  {
    Config(MinYear, ManualDuplicates, parseYear, (a, b) => AreDuplicate(ratio, threshold, a, b))
  }

  /** Where an entry goes in the loop, before the duplicate scan. */
  datatype Verdict = NoYear | IncompleteMisc | InvalidYear | TooOld | ManualDuplicate | Candidate

  /** A `@misc` entry with no venue field, no DOI, and a `citation` or `note`
      field present (present even if empty). */
  predicate IsIncompleteMisc(e: Entry) {
    && Kind(e) == "misc"
    && Field(e, "journal") == "" && Field(e, "booktitle") == ""
    && Field(e, "publisher") == "" && Field(e, "howpublished") == ""
    && Field(e, "doi") == ""
    && ("citation" in e.fields || "note" in e.fields)
  }

  /** The year, when the entry has one and it parses. */
  function YearOf(cfg: Config, e: Entry): Option<int> {
    if Field(e, "year") == "" then None else cfg.parseYear(Field(e, "year"))
  }

  /** The filters in the order the loop applies them; the first that fires
      decides. */
  function Classify(cfg: Config, e: Entry): Verdict {
    var yearText := Field(e, "year");
    if yearText == "" then NoYear
    else if IsIncompleteMisc(e) then IncompleteMisc
    else
      match cfg.parseYear(yearText)
      case None => InvalidYear
      case Some(year) =>
        if year < cfg.minYear then TooOld
        else if e.key in cfg.manual then ManualDuplicate
        else Candidate
  }

  /** What each verdict says about the entry. An entry passes every filter
      exactly when it is not an incomplete `@misc`, its year parses to at
      least the minimum, and its key is not in the manual table. */
  lemma ClassifyMeaning(cfg: Config, e: Entry)
    ensures Classify(cfg, e) == NoYear <==> Field(e, "year") == ""
    ensures Classify(cfg, e) == IncompleteMisc <==> Field(e, "year") != "" && IsIncompleteMisc(e)
    ensures Classify(cfg, e) == InvalidYear <==> !IsIncompleteMisc(e) && Field(e, "year") != "" && YearOf(cfg, e) == None
    ensures Classify(cfg, e) == TooOld <==>
              !IsIncompleteMisc(e) && YearOf(cfg, e).Some? && YearOf(cfg, e).value < cfg.minYear
    ensures Classify(cfg, e) == ManualDuplicate <==>
              !IsIncompleteMisc(e) && YearOf(cfg, e).Some? && YearOf(cfg, e).value >= cfg.minYear && e.key in cfg.manual
    ensures Classify(cfg, e) == Candidate <==>
              !IsIncompleteMisc(e) && YearOf(cfg, e).Some? && YearOf(cfg, e).value >= cfg.minYear && e.key !in cfg.manual
  {
  }

  /** The `@misc` filter runs before the year is parsed: an incomplete `@misc`
      entry is counted as incomplete whatever its year says. */
  lemma MiscFilterBeforeYear(cfg: Config, e: Entry)
    requires Field(e, "year") != "" && IsIncompleteMisc(e)
    ensures Classify(cfg, e) == IncompleteMisc
  {
    ClassifyMeaning(cfg, e);
  }

  /** The manual table is consulted only for recent entries with a valid year;
      such an entry is always dropped, however unlike the rest it is. */
  lemma ManualKeyIsDropped(cfg: Config, e: Entry)
    requires e.key in cfg.manual
    ensures Classify(cfg, e) != Candidate
    ensures Classify(cfg, e) == ManualDuplicate <==>
              !IsIncompleteMisc(e) && YearOf(cfg, e).Some? && YearOf(cfg, e).value >= cfg.minYear
  {
    ClassifyMeaning(cfg, e);
  }

  // ---------------------------------------------------------------------------
  // Counting
  // ---------------------------------------------------------------------------

  /** How many entries of `s` receive verdict `v`. */
  function Count(cfg: Config, s: seq<Entry>, v: Verdict): (n: nat)
    ensures n <= |s|
  {
    if s == [] then 0
    else Count(cfg, s[..|s| - 1], v) + (if Classify(cfg, s[|s| - 1]) == v then 1 else 0)
  }

  /** Every entry receives exactly one verdict. */
  lemma {:induction false} CountSum(cfg: Config, s: seq<Entry>)
    ensures Count(cfg, s, NoYear) + Count(cfg, s, IncompleteMisc) + Count(cfg, s, InvalidYear)
            + Count(cfg, s, TooOld) + Count(cfg, s, ManualDuplicate) + Count(cfg, s, Candidate) == |s|
    decreases |s|
  {
    if s != [] {
      CountSum(cfg, s[..|s| - 1]);
    }
  }

  lemma {:induction false} CountConcat(cfg: Config, a: seq<Entry>, b: seq<Entry>, v: Verdict)
    ensures Count(cfg, a + b, v) == Count(cfg, a, v) + Count(cfg, b, v)
    decreases |b|
  {
    if b == [] {
      assert a + b == a;
    } else {
      assert (a + b)[..|a + b| - 1] == a + b[..|b| - 1];
      CountConcat(cfg, a, b[..|b| - 1], v);
    }
  }

  /** Counting the three key groups separately counts the whole list. */
  lemma {:induction false} CountByGroups(cfg: Config, key: Entry -> Rank, s: seq<Entry>, v: Verdict)
    ensures Count(cfg, OfRank(key, s, 0), v) + Count(cfg, OfRank(key, s, 1), v) + Count(cfg, OfRank(key, s, 2), v)
            == Count(cfg, s, v)
    decreases |s|
  {
    if s != [] {
      var s' := s[..|s| - 1];
      var x := s[|s| - 1];
      CountByGroups(cfg, key, s', v);
      CountConcat(cfg, OfRank(key, s', key(x)), [x], v);
      assert [x][..0] == [];
    }
  }

  /** Sorting does not change how many entries receive each verdict. */
  lemma CountStableSort(cfg: Config, key: Entry -> Rank, s: seq<Entry>, v: Verdict)
    ensures Count(cfg, StableSort(key, s), v) == Count(cfg, s, v)
  {
    CountConcat(cfg, OfRank(key, s, 0) + OfRank(key, s, 1), OfRank(key, s, 2), v);
    CountConcat(cfg, OfRank(key, s, 0), OfRank(key, s, 1), v);
    CountByGroups(cfg, key, s, v);
  }

  // ---------------------------------------------------------------------------
  // The kept entries
  // ---------------------------------------------------------------------------

  /** `any(are_entries_duplicate(x, u, threshold) for u in acc)` */
  predicate DuplicatesAny(cfg: Config, x: Entry, acc: seq<Entry>) {
    exists k :: 0 <= k < |acc| && cfg.duplicate(x, acc[k])
  }

  /** The kept list after the loop has seen `s`: a candidate is appended
      unless it duplicates an entry kept before it. */
  function Accepted(cfg: Config, s: seq<Entry>): seq<Entry> {
    if s == [] then []
    else
      var acc := Accepted(cfg, s[..|s| - 1]);
      var x := s[|s| - 1];
      if Classify(cfg, x) == Candidate && !DuplicatesAny(cfg, x, acc) then acc + [x] else acc
  }

  /** No kept entry is a duplicate of an entry kept before it. */
  ghost predicate NoDuplicatePairs(cfg: Config, r: seq<Entry>) {
    forall i, j :: 0 <= i < j < |r| ==> !cfg.duplicate(r[j], r[i])
  }

  /** `idx` lists, in increasing order, positions of `b` that spell out `a`. */
  ghost predicate Embeds(a: seq<Entry>, b: seq<Entry>, idx: seq<int>) {
    && |idx| == |a|
    && (forall k :: 0 <= k < |idx| ==> 0 <= idx[k] < |b| && a[k] == b[idx[k]])
    && (forall k, l :: 0 <= k < l < |idx| ==> idx[k] < idx[l])
  }

  ghost predicate IsSubsequence(a: seq<Entry>, b: seq<Entry>) {
    exists idx :: Embeds(a, b, idx)
  }

  /** The kept entries are a subsequence of the input: nothing is invented and
      the input order is kept. */
  lemma {:induction false} AcceptedEmbeds(cfg: Config, s: seq<Entry>) returns (idx: seq<int>)
    ensures Embeds(Accepted(cfg, s), s, idx)
    decreases |s|
  {
    if s == [] {
      idx := [];
    } else {
      var s' := s[..|s| - 1];
      var prev := AcceptedEmbeds(cfg, s');
      if Accepted(cfg, s) == Accepted(cfg, s') {
        idx := prev;
      } else {
        idx := prev + [|s| - 1];
      }
    }
  }

  lemma AcceptedSubsequence(cfg: Config, s: seq<Entry>)
    ensures IsSubsequence(Accepted(cfg, s), s)
  {
    var idx := AcceptedEmbeds(cfg, s);
  }

  /** Every kept entry passed all four filters. */
  lemma {:induction false} AcceptedAreCandidates(cfg: Config, s: seq<Entry>)
    ensures forall k :: 0 <= k < |Accepted(cfg, s)| ==> Classify(cfg, Accepted(cfg, s)[k]) == Candidate
    decreases |s|
  {
    if s != [] {
      AcceptedAreCandidates(cfg, s[..|s| - 1]);
    }
  }

  /** Every kept entry has a year that parses to at least the minimum, is not
      an incomplete `@misc`, and has a key outside the manual table. */
  lemma KeptEntriesPassFilters(cfg: Config, s: seq<Entry>)
    ensures forall k :: 0 <= k < |Accepted(cfg, s)| ==>
              && YearOf(cfg, Accepted(cfg, s)[k]).Some?
              && YearOf(cfg, Accepted(cfg, s)[k]).value >= cfg.minYear
              && !IsIncompleteMisc(Accepted(cfg, s)[k])
              && Accepted(cfg, s)[k].key !in cfg.manual
  {
    AcceptedAreCandidates(cfg, s);
    forall k | 0 <= k < |Accepted(cfg, s)|
      ensures YearOf(cfg, Accepted(cfg, s)[k]).Some?
      ensures YearOf(cfg, Accepted(cfg, s)[k]).value >= cfg.minYear
      ensures !IsIncompleteMisc(Accepted(cfg, s)[k])
      ensures Accepted(cfg, s)[k].key !in cfg.manual
    {
      ClassifyMeaning(cfg, Accepted(cfg, s)[k]);
    }
  }

  lemma {:induction false} AcceptedNoDuplicatePairs(cfg: Config, s: seq<Entry>)
    ensures NoDuplicatePairs(cfg, Accepted(cfg, s))
    decreases |s|
  {
    if s != [] {
      AcceptedNoDuplicatePairs(cfg, s[..|s| - 1]);
    }
  }

  /** No more entries are kept than pass the filters. */
  lemma {:induction false} AcceptedAtMostCandidates(cfg: Config, s: seq<Entry>)
    ensures |Accepted(cfg, s)| <= Count(cfg, s, Candidate)
    decreases |s|
  {
    if s != [] {
      AcceptedAtMostCandidates(cfg, s[..|s| - 1]);
    }
  }

  /** The kept list only grows: what is kept after a prefix is a prefix of
      what is kept after the whole. */
  lemma {:induction false} AcceptedGrows(cfg: Config, s: seq<Entry>, n: nat)
    requires n <= |s|
    ensures |Accepted(cfg, s[..n])| <= |Accepted(cfg, s)|
    ensures Accepted(cfg, s[..n]) == Accepted(cfg, s)[..|Accepted(cfg, s[..n])|]
    decreases |s| - n
  {
    if n < |s| {
      AcceptedGrows(cfg, s, n + 1);
      assert s[..n + 1][..n] == s[..n];
    } else {
      assert s[..n] == s;
    }
  }

  /** Nothing that passes the filters is lost without cause: every candidate
      of the input is either kept or a duplicate of a kept entry. More
      precisely, it is appended right after the entries kept before it, or it
      duplicates one of those earlier kept entries (which `AcceptedGrows`
      shows are a prefix of the final kept list). */
  lemma AcceptedCoversCandidates(cfg: Config, s: seq<Entry>, i: nat)
    requires i < |s| && Classify(cfg, s[i]) == Candidate
    ensures s[i] in Accepted(cfg, s) || DuplicatesAny(cfg, s[i], Accepted(cfg, s))
    ensures Accepted(cfg, s[..i + 1]) == Accepted(cfg, s[..i]) + [s[i]]
         || DuplicatesAny(cfg, s[i], Accepted(cfg, s[..i]))
    ensures var n := |Accepted(cfg, s[..i])|;
      (n < |Accepted(cfg, s)| && Accepted(cfg, s)[n] == s[i])
      || DuplicatesAny(cfg, s[i], Accepted(cfg, s[..i]))
  {
    var before := Accepted(cfg, s[..i]);
    var after := Accepted(cfg, s[..i + 1]);
    var r := Accepted(cfg, s);
    assert s[..i + 1][..i] == s[..i];
    assert s[..i + 1][i] == s[i];
    AcceptedGrows(cfg, s, i + 1);
    if DuplicatesAny(cfg, s[i], before) {
      var k :| 0 <= k < |before| && cfg.duplicate(s[i], before[k]);
      assert after == before;
      assert r[k] == after[k];
    } else {
      assert after == before + [s[i]];
      assert r[|before|] == after[|before|];
    }
  }

  /** Taken from a priority-sorted list, the kept entries are priority-sorted
      too: every kept book precedes every kept chapter. */
  lemma KeptInPriorityOrder(cfg: Config, s: seq<Entry>)
    ensures SortedBy(Priority, Accepted(cfg, Reorder(s)))
  {
    var t := Reorder(s);
    var r := Accepted(cfg, t);
    var idx := AcceptedEmbeds(cfg, t);
    forall i, j | 0 <= i < j < |r|
      ensures Priority(r[i]) <= Priority(r[j])
    {
      assert r[i] == t[idx[i]] && r[j] == t[idx[j]];
    }
  }

  /** With the script's duplicate decision, no kept entry is judged by
      `are_entries_duplicate` a duplicate of one kept before it. */
  lemma KeptPairsAreDistinct(ratio: Ratio, threshold: real, parseYear: string -> Option<int>, s: seq<Entry>)
    ensures forall i, j :: 0 <= i < j < |Accepted(BibConfig(ratio, threshold, parseYear), s)| ==>
              !AreDuplicate(ratio, threshold, Accepted(BibConfig(ratio, threshold, parseYear), s)[j],
                            Accepted(BibConfig(ratio, threshold, parseYear), s)[i])
  {
    AcceptedNoDuplicatePairs(BibConfig(ratio, threshold, parseYear), s);
  }

  /** A chapter and the book it belongs to are never both kept. */
  lemma NoChapterBesideItsBook(ratio: Ratio, threshold: real, parseYear: string -> Option<int>,
                               s: seq<Entry>, i: nat, j: nat)
    requires i < |Accepted(BibConfig(ratio, threshold, parseYear), s)|
    requires j < |Accepted(BibConfig(ratio, threshold, parseYear), s)|
    requires i != j
    ensures !IsIncollectionOfBook(ratio, Accepted(BibConfig(ratio, threshold, parseYear), s)[i],
                                  Accepted(BibConfig(ratio, threshold, parseYear), s)[j])
  {
    KeptPairsAreDistinct(ratio, threshold, parseYear, s);
    var r := Accepted(BibConfig(ratio, threshold, parseYear), s);
    if i < j {
      assert !AreDuplicate(ratio, threshold, r[j], r[i]);
    } else {
      assert !AreDuplicate(ratio, threshold, r[i], r[j]);
    }
  }

  /** With the script's settings the manually listed key never reaches the
      output. */
  lemma ManualKeyNeverKept(ratio: Ratio, threshold: real, parseYear: string -> Option<int>, s: seq<Entry>)
    ensures forall k :: 0 <= k < |Accepted(BibConfig(ratio, threshold, parseYear), s)| ==>
              Accepted(BibConfig(ratio, threshold, parseYear), s)[k].key != "Son2025TTCT2C"
  {
    KeptEntriesPassFilters(BibConfig(ratio, threshold, parseYear), s);
  }

  // ---------------------------------------------------------------------------
  // The loop
  // ---------------------------------------------------------------------------

  /** The counters written into the output header. */
  datatype Tally = Tally(duplicates: nat, tooOld: nat, incompleteMisc: nat, noYear: nat, total: nat)

  /** The inner `for unique_entry in unique_entries` scan: the position of the
      first kept entry that `x` duplicates, if any. */
  method FindFirstDuplicate(cfg: Config, x: Entry, acc: seq<Entry>) returns (m: Option<nat>)
    ensures m.Some? ==> m.value < |acc| && cfg.duplicate(x, acc[m.value])
    ensures m.Some? ==> forall k :: 0 <= k < m.value ==> !cfg.duplicate(x, acc[k])
    ensures m.None? <==> !DuplicatesAny(cfg, x, acc)
  {
    var k := 0;
    while k < |acc|
      invariant 0 <= k <= |acc|
      invariant forall j :: 0 <= j < k ==> !cfg.duplicate(x, acc[j])
    {
      if cfg.duplicate(x, acc[k]) {
        return Some(k);
      }
      k := k + 1;
    }
    return None;
  }

  /** The counter the loop increments for an entry with verdict `v`; `dup`
      says whether the entry duplicates one already kept. Both kinds of year
      failure share a counter, and so do manual and detected duplicates. */
  function Bump(t: Tally, v: Verdict, dup: bool): Tally {
    match v
    case NoYear => t.(noYear := t.noYear + 1)
    case InvalidYear => t.(noYear := t.noYear + 1)
    case IncompleteMisc => t.(incompleteMisc := t.incompleteMisc + 1)
    case TooOld => t.(tooOld := t.tooOld + 1)
    case ManualDuplicate => t.(duplicates := t.duplicates + 1)
    case Candidate => if dup then t.(duplicates := t.duplicates + 1) else t
  }

  /** The counters after the loop has seen `s`, alongside `Accepted`. */
  function Tallied(cfg: Config, s: seq<Entry>, total: nat): Tally {
    if s == [] then Tally(0, 0, 0, 0, total)
    else
      var s' := s[..|s| - 1];
      var x := s[|s| - 1];
      Bump(Tallied(cfg, s', total), Classify(cfg, x), DuplicatesAny(cfg, x, Accepted(cfg, s')))
  }

  /** Each entry moves exactly one counter, or joins the kept list. */
  lemma {:induction false} TalliedCounts(cfg: Config, s: seq<Entry>, total: nat)
    ensures Tallied(cfg, s, total).total == total
    ensures Tallied(cfg, s, total).noYear == Count(cfg, s, NoYear) + Count(cfg, s, InvalidYear)
    ensures Tallied(cfg, s, total).incompleteMisc == Count(cfg, s, IncompleteMisc)
    ensures Tallied(cfg, s, total).tooOld == Count(cfg, s, TooOld)
    ensures Tallied(cfg, s, total).duplicates + |Accepted(cfg, s)|
            == Count(cfg, s, ManualDuplicate) + Count(cfg, s, Candidate)
    decreases |s|
  {
    if s != [] {
      var s' := s[..|s| - 1];
      var x := s[|s| - 1];
      TalliedCounts(cfg, s', total);
      var dup := DuplicatesAny(cfg, x, Accepted(cfg, s'));
      assert Tallied(cfg, s, total) == Bump(Tallied(cfg, s', total), Classify(cfg, x), dup);
      match Classify(cfg, x)
      case Candidate =>
        assert |Accepted(cfg, s)| == |Accepted(cfg, s')| + if dup then 0 else 1;
      case _ =>
        assert Accepted(cfg, s) == Accepted(cfg, s');
    }
  }

  /** One pass of the loop body: the filters in the order the script applies
      them, then the manual table, then the scan of the kept entries. */
  method Visit(cfg: Config, e: Entry, unique: seq<Entry>, t: Tally) returns (unique': seq<Entry>, t': Tally)
    ensures unique' == if Classify(cfg, e) == Candidate && !DuplicatesAny(cfg, e, unique) then unique + [e] else unique
    ensures t' == Bump(t, Classify(cfg, e), DuplicatesAny(cfg, e, unique))
  {
    unique', t' := unique, t;
    var yearText := Field(e, "year");
    if yearText == "" {
      t' := t'.(noYear := t'.noYear + 1);
    } else if IsIncompleteMisc(e) {
      t' := t'.(incompleteMisc := t'.incompleteMisc + 1);
    } else {
      match cfg.parseYear(yearText)
      case None =>
        t' := t'.(noYear := t'.noYear + 1);
      case Some(year) =>
        if year < cfg.minYear {
          t' := t'.(tooOld := t'.tooOld + 1);
        } else if e.key in cfg.manual {
          t' := t'.(duplicates := t'.duplicates + 1);
        } else {
          var m := FindFirstDuplicate(cfg, e, unique);
          if m.Some? {
            t' := t'.(duplicates := t'.duplicates + 1);
          } else {
            unique' := unique + [e];
          }
        }
    }
  }

  /** What the reference fold and the counts say about a reordered input. */
  lemma MergeSummary(cfg: Config, entries: seq<Entry>)
    ensures forall v :: Count(cfg, Reorder(entries), v) == Count(cfg, entries, v)
    ensures |Accepted(cfg, Reorder(entries))| <= Count(cfg, entries, Candidate)
    ensures forall k :: 0 <= k < |Accepted(cfg, Reorder(entries))| ==>
              && YearOf(cfg, Accepted(cfg, Reorder(entries))[k]).Some?
              && YearOf(cfg, Accepted(cfg, Reorder(entries))[k]).value >= cfg.minYear
              && !IsIncompleteMisc(Accepted(cfg, Reorder(entries))[k])
              && Accepted(cfg, Reorder(entries))[k].key !in cfg.manual
    ensures NoDuplicatePairs(cfg, Accepted(cfg, Reorder(entries)))
    ensures IsSubsequence(Accepted(cfg, Reorder(entries)), Reorder(entries))
    ensures SortedBy(Priority, Accepted(cfg, Reorder(entries)))
  {
    forall v {
      CountStableSort(cfg, Priority, entries, v);
    }
    var sorted := Reorder(entries);
    AcceptedAtMostCandidates(cfg, sorted);
    KeptEntriesPassFilters(cfg, sorted);
    AcceptedNoDuplicatePairs(cfg, sorted);
    AcceptedSubsequence(cfg, sorted);
    KeptInPriorityOrder(cfg, entries);
  }

  /** The deduplication loop over an already sorted list. */
  method Deduplicate(cfg: Config, sorted: seq<Entry>, total: nat) returns (unique: seq<Entry>, tally: Tally)
    ensures unique == Accepted(cfg, sorted)
    ensures tally == Tallied(cfg, sorted, total)
  {
    unique := [];
    tally := Tally(0, 0, 0, 0, total);
    var i := 0;
    while i < |sorted|
      invariant 0 <= i <= |sorted|
      invariant unique == Accepted(cfg, sorted[..i])
      invariant tally == Tallied(cfg, sorted[..i], total)
    {
      assert sorted[..i + 1][..i] == sorted[..i];
      unique, tally := Visit(cfg, sorted[i], unique, tally);
      i := i + 1;
    }
    assert sorted[..i] == sorted;
  }

  /** `merge_bib_files` from the sort to the end of the loop: the kept entries
      in output order and the header counters. */
  method MergeEntries(cfg: Config, entries: seq<Entry>) returns (unique: seq<Entry>, tally: Tally)
    ensures unique == Accepted(cfg, Reorder(entries))
    ensures tally.total == |entries|
    ensures tally.noYear == Count(cfg, entries, NoYear) + Count(cfg, entries, InvalidYear)
    ensures tally.incompleteMisc == Count(cfg, entries, IncompleteMisc)
    ensures tally.tooOld == Count(cfg, entries, TooOld)
    ensures tally.duplicates + |unique| == Count(cfg, entries, ManualDuplicate) + Count(cfg, entries, Candidate)
    ensures |unique| + tally.duplicates + tally.tooOld + tally.incompleteMisc + tally.noYear == tally.total
    ensures |unique| <= Count(cfg, entries, Candidate)
    ensures forall k :: 0 <= k < |unique| ==>
              && YearOf(cfg, unique[k]).Some? && YearOf(cfg, unique[k]).value >= cfg.minYear
              && !IsIncompleteMisc(unique[k]) && unique[k].key !in cfg.manual
    ensures NoDuplicatePairs(cfg, unique)
    ensures IsSubsequence(unique, Reorder(entries))
    ensures SortedBy(Priority, unique)
  {
    var sorted := Reorder(entries);
    unique, tally := Deduplicate(cfg, sorted, |entries|);
    TalliedCounts(cfg, sorted, |entries|);
    MergeSummary(cfg, entries);
    CountSum(cfg, entries);
  }
}
