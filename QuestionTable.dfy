/**
 * The question table of a subject card: the rows visible under the status and
 * chapter filters, the per-status tallies of the question list, and the
 * per-chapter counts and sorted chapter list of the chapter dropdown
 * (components/SubjectCard.tsx, lines 294-315).
 *
 * Two JavaScript truthiness rules are kept: a chapter filter that is the empty
 * string filters nothing, just like null, and a question whose chapter is
 * absent or the empty string is not counted under any chapter.
 */
module QuestionTable {
  import opened Types
  import JsSort

  /** The value of the status dropdown: `'All'` or one status. */
  datatype StatusFilter = All | Only(status: Status)

  predicate MatchesStatus(filter: StatusFilter, q: QuestionDetail) {
    filter.All? || q.result == filter.status
  }

  /** A null or empty chapter filter is falsy and lets every question through. */
  predicate MatchesChapter(filter: Option<string>, q: QuestionDetail) {
    match filter
    case None => true
    case Some(c) => c == "" || q.chapter == Some(c)
  }

  predicate Matches(statusFilter: StatusFilter, chapterFilter: Option<string>, q: QuestionDetail) {
    MatchesStatus(statusFilter, q) && MatchesChapter(chapterFilter, q)
  }

  /** `a` is `b` with some elements dropped and the rest kept in order. */
  predicate IsSubsequence(a: seq<QuestionDetail>, b: seq<QuestionDetail>)
    decreases |b|
  {
    if a == [] then true
    else if b == [] then false
    else if a[0] == b[0] then IsSubsequence(a[1..], b[1..])
    else IsSubsequence(a, b[1..])
  }

  /** Number of questions that pass both filters, counting repeated questions each time. */
  function CountMatching(qs: seq<QuestionDetail>, statusFilter: StatusFilter, chapterFilter: Option<string>): nat {
    if qs == [] then 0
    else (if Matches(statusFilter, chapterFilter, qs[0]) then 1 else 0) + CountMatching(qs[1..], statusFilter, chapterFilter)
  }

  /**
   * The rows of the question table (`filteredQuestions`): the matching
   * questions, in order, each as often as it occurs.
   */
  function FilterQuestions(qs: seq<QuestionDetail>, statusFilter: StatusFilter, chapterFilter: Option<string>)
    : (r: seq<QuestionDetail>)
    ensures forall q :: q in r <==> q in qs && Matches(statusFilter, chapterFilter, q)
    ensures IsSubsequence(r, qs)
    ensures |r| == CountMatching(qs, statusFilter, chapterFilter)
  {
    if qs == [] then []
    else
      var rest := FilterQuestions(qs[1..], statusFilter, chapterFilter);
      assert forall q :: q in qs <==> q == qs[0] || q in qs[1..];
      if Matches(statusFilter, chapterFilter, qs[0]) then
        assert ([qs[0]] + rest)[1..] == rest;
        [qs[0]] + rest
      else
        SubsequenceSkip(rest, qs);
        rest
  }

  lemma SubsequenceSkip(a: seq<QuestionDetail>, b: seq<QuestionDetail>)
    requires b != [] && IsSubsequence(a, b[1..])
    ensures IsSubsequence(a, b)
    decreases |b|, 0
  {
    if a != [] && a[0] == b[0] {
      SubsequenceTail(a, b[1..]);
    }
  }

  lemma SubsequenceTail(a: seq<QuestionDetail>, b: seq<QuestionDetail>)
    requires a != [] && IsSubsequence(a, b)
    ensures IsSubsequence(a[1..], b)
    decreases |b|, 1
  {
    if a[1..] != [] && b != [] {
      if a[0] == b[0] {
        SubsequenceSkip(a[1..], b);
      } else {
        SubsequenceTail(a, b[1..]);
        SubsequenceSkip(a[1..], b);
      }
    }
  }

  /** A subsequence made only of matching questions is no longer than the count of matching questions. */
  lemma {:induction false} MatchingSubsequenceBound(r: seq<QuestionDetail>, qs: seq<QuestionDetail>,
                                                    statusFilter: StatusFilter, chapterFilter: Option<string>)
    requires forall q :: q in r ==> Matches(statusFilter, chapterFilter, q)
    requires IsSubsequence(r, qs)
    ensures |r| <= CountMatching(qs, statusFilter, chapterFilter)
  {
    if r != [] && qs != [] {
      if r[0] == qs[0] {
        assert r[0] in r;
        assert forall q :: q in r[1..] ==> q in r;
        MatchingSubsequenceBound(r[1..], qs[1..], statusFilter, chapterFilter);
      } else {
        MatchingSubsequenceBound(r, qs[1..], statusFilter, chapterFilter);
      }
    }
  }

  /**
   * The contract of `FilterQuestions` determines its result: an ordered
   * selection of matching questions that is as long as the count of matching
   * questions is exactly the table's rows, repeated questions included.
   */
  lemma {:induction false} FilterIsLongestMatchingSubsequence(r: seq<QuestionDetail>, qs: seq<QuestionDetail>,
                                                              statusFilter: StatusFilter, chapterFilter: Option<string>)
    requires forall q :: q in r ==> Matches(statusFilter, chapterFilter, q)
    requires IsSubsequence(r, qs)
    requires |r| == CountMatching(qs, statusFilter, chapterFilter)
    ensures r == FilterQuestions(qs, statusFilter, chapterFilter)
  {
    if qs != [] && r != [] {
      if r[0] == qs[0] {
        assert r[0] in r;
        assert forall q :: q in r[1..] ==> q in r;
        FilterIsLongestMatchingSubsequence(r[1..], qs[1..], statusFilter, chapterFilter);
        assert r == [r[0]] + r[1..];
      } else {
        MatchingSubsequenceBound(r, qs[1..], statusFilter, chapterFilter);
        FilterIsLongestMatchingSubsequence(r, qs[1..], statusFilter, chapterFilter);
      }
    }
  }

  /** With the status filter on All and no chapter filter, the table shows every question. */
  lemma {:induction false} NoFilterShowsAll(qs: seq<QuestionDetail>)
    ensures FilterQuestions(qs, All, None) == qs
  {
    if qs != [] {
      NoFilterShowsAll(qs[1..]);
      assert qs == [qs[0]] + qs[1..];
    }
  }

  /**
   * Both filters together give the status filter's rows narrowed by the chapter
   * filter, and also the chapter filter's rows narrowed by the status filter.
   */
  lemma {:induction false} FiltersCompose(qs: seq<QuestionDetail>, statusFilter: StatusFilter, chapterFilter: Option<string>)
    ensures FilterQuestions(qs, statusFilter, chapterFilter)
         == FilterQuestions(FilterQuestions(qs, statusFilter, None), All, chapterFilter)
    ensures FilterQuestions(qs, statusFilter, chapterFilter)
         == FilterQuestions(FilterQuestions(qs, All, chapterFilter), statusFilter, None)
  {
    if qs != [] {
      FiltersCompose(qs[1..], statusFilter, chapterFilter);
    }
  }

  /** Number of questions with the given result. */
  function CountResult(qs: seq<QuestionDetail>, s: Status): nat {
    if qs == [] then 0
    else (if qs[0].result == s then 1 else 0) + CountResult(qs[1..], s)
  }

  lemma {:induction false} StatusFilterLength(qs: seq<QuestionDetail>, s: Status)
    ensures |FilterQuestions(qs, Only(s), None)| == CountResult(qs, s)
  {
    if qs != [] {
      StatusFilterLength(qs[1..], s);
    }
  }

  /** Every question has exactly one of the three results. */
  lemma {:induction false} ResultCountsPartition(qs: seq<QuestionDetail>)
    ensures CountResult(qs, Correct) + CountResult(qs, Incorrect) + CountResult(qs, Unattempted) == |qs|
  {
    if qs != [] {
      ResultCountsPartition(qs[1..]);
    }
  }

  /** `questionArrayCounts`: the count shown beside each option of the status dropdown. */
  datatype StatusTally = StatusTally(all: nat, correct: nat, incorrect: nat, unattempted: nat)

  function QuestionArrayCounts(qs: seq<QuestionDetail>): (r: StatusTally)
    ensures r.all == |qs|
    ensures r.correct == CountResult(qs, Correct)
    ensures r.incorrect == CountResult(qs, Incorrect)
    ensures r.unattempted == CountResult(qs, Unattempted)
    ensures r.correct + r.incorrect + r.unattempted == r.all
  {
    StatusFilterLength(qs, Correct);
    StatusFilterLength(qs, Incorrect);
    StatusFilterLength(qs, Unattempted);
    ResultCountsPartition(qs);
    StatusTally(
      |qs|,
      |FilterQuestions(qs, Only(Correct), None)|,
      |FilterQuestions(qs, Only(Incorrect), None)|,
      |FilterQuestions(qs, Only(Unattempted), None)|)
  }

  /** The question is filed under a chapter: `q.chapter` is present and non-empty (truthy). */
  predicate HasChapter(q: QuestionDetail) {
    q.chapter.Some? && q.chapter.value != ""
  }

  /** Number of questions whose chapter is `c`. */
  function CountChapter(qs: seq<QuestionDetail>, c: string): nat {
    if qs == [] then 0
    else (if qs[0].chapter == Some(c) then 1 else 0) + CountChapter(qs[1..], c)
  }

  /** Number of questions filed under some chapter. */
  function CountWithChapter(qs: seq<QuestionDetail>): nat {
    if qs == [] then 0
    else (if HasChapter(qs[0]) then 1 else 0) + CountWithChapter(qs[1..])
  }

  /** `chapterCounts`: the left fold over the questions that bumps the entry of each question's chapter. */
  function ChapterCounts(qs: seq<QuestionDetail>): map<string, nat> {
    if qs == [] then map[]
    else
      var acc := ChapterCounts(qs[..|qs| - 1]);
      var q := qs[|qs| - 1];
      if HasChapter(q) then
        acc[q.chapter.value := (if q.chapter.value in acc then acc[q.chapter.value] else 0) + 1]
      else acc
  }

  /** The keys of `chapterCounts` in the order the fold first added them (`Object.keys`). */
  function ChapterKeyOrder(qs: seq<QuestionDetail>): seq<string> {
    if qs == [] then []
    else
      var keys := ChapterKeyOrder(qs[..|qs| - 1]);
      var q := qs[|qs| - 1];
      if HasChapter(q) && q.chapter.value !in keys then keys + [q.chapter.value] else keys
  }

  lemma {:induction false} CountChapterSnoc(qs: seq<QuestionDetail>, q: QuestionDetail, c: string)
    ensures CountChapter(qs + [q], c) == CountChapter(qs, c) + (if q.chapter == Some(c) then 1 else 0)
  {
    if qs != [] {
      assert (qs + [q])[1..] == qs[1..] + [q];
      CountChapterSnoc(qs[1..], q, c);
    }
  }

  /**
   * `chapterCounts` has a key for exactly the non-empty chapter names that some
   * question carries, and maps each to the number of questions in that chapter;
   * `Object.keys` lists each of those keys once.
   */
  lemma {:induction false} ChapterCountsSpec(qs: seq<QuestionDetail>)
    ensures forall c :: c in ChapterCounts(qs) <==> c != "" && CountChapter(qs, c) > 0
    ensures forall c :: c in ChapterCounts(qs) ==> ChapterCounts(qs)[c] == CountChapter(qs, c)
    ensures forall c :: c in ChapterKeyOrder(qs) <==> c in ChapterCounts(qs)
    ensures JsSort.Distinct(ChapterKeyOrder(qs))
  {
    if qs != [] {
      var init, q := qs[..|qs| - 1], qs[|qs| - 1];
      assert qs == init + [q];
      ChapterCountsSpec(init);
      forall c ensures CountChapter(qs, c) == CountChapter(init, c) + (if q.chapter == Some(c) then 1 else 0) {
        CountChapterSnoc(init, q, c);
      }
    }
  }

  /** `uniqueChapters`: the options of the chapter dropdown. */
  function UniqueChapters(qs: seq<QuestionDetail>): seq<string> {
    ChapterCountsSpec(qs);
    JsSort.Sort(ChapterKeyOrder(qs))
  }

  /**
   * The dropdown lists each chapter that some question is filed under, once,
   * in JavaScript's default string order, and nothing else.
   */
  lemma UniqueChaptersSpec(qs: seq<QuestionDetail>)
    ensures JsSort.StrictlySorted(UniqueChapters(qs))
    ensures JsSort.Distinct(UniqueChapters(qs))
    ensures forall c :: c in UniqueChapters(qs) <==> c in ChapterCounts(qs)
    ensures forall c :: c in UniqueChapters(qs) <==> exists q :: q in qs && HasChapter(q) && q.chapter.value == c
  {
    ChapterCountsSpec(qs);
    var u := UniqueChapters(qs);
    JsSort.StrictlySortedIsDistinct(u);
    forall c ensures c in u <==> c in ChapterKeyOrder(qs) {
      assert c in u <==> c in multiset(u);
    }
    forall c ensures c in ChapterCounts(qs) <==> exists q :: q in qs && HasChapter(q) && q.chapter.value == c {
      ChapterPresent(qs, c);
    }
  }

  lemma {:induction false} ChapterPresent(qs: seq<QuestionDetail>, c: string)
    ensures CountChapter(qs, c) > 0 <==> exists q :: q in qs && q.chapter == Some(c)
  {
    if qs != [] {
      ChapterPresent(qs[1..], c);
      assert forall q :: q in qs <==> q == qs[0] || q in qs[1..];
    }
  }

  /**
   * Choosing a chapter in the dropdown (status All) shows as many rows as the
   * count the dropdown computed for that chapter.
   */
  lemma {:induction false} ChapterRowsMatchCount(qs: seq<QuestionDetail>, c: string)
    requires c in ChapterCounts(qs)
    ensures |FilterQuestions(qs, All, Some(c))| == ChapterCounts(qs)[c]
  {
    ChapterCountsSpec(qs);
    ChapterFilterLength(qs, c);
  }

  lemma {:induction false} ChapterFilterLength(qs: seq<QuestionDetail>, c: string)
    requires c != ""
    ensures |FilterQuestions(qs, All, Some(c))| == CountChapter(qs, c)
  {
    if qs != [] {
      ChapterFilterLength(qs[1..], c);
    }
  }

  /** Sum of the counts of the given chapters. */
  function SumChapterCounts(qs: seq<QuestionDetail>, keys: seq<string>): nat {
    if keys == [] then 0 else CountChapter(qs, keys[0]) + SumChapterCounts(qs, keys[1..])
  }

  /** The counts next to the dropdown options, added up. */
  function DropdownTotal(qs: seq<QuestionDetail>): nat {
    SumChapterCounts(qs, UniqueChapters(qs))
  }

  /** Number of the given chapters that `q` is filed under. */
  function Hits(q: QuestionDetail, keys: seq<string>): nat {
    if keys == [] then 0 else (if q.chapter == Some(keys[0]) then 1 else 0) + Hits(q, keys[1..])
  }

  lemma {:induction false} HitsDistinct(q: QuestionDetail, keys: seq<string>)
    requires JsSort.Distinct(keys)
    ensures Hits(q, keys) == if q.chapter.Some? && q.chapter.value in keys then 1 else 0
  {
    if keys != [] {
      HitsDistinct(q, keys[1..]);
      assert forall k :: k in keys <==> k == keys[0] || k in keys[1..];
    }
  }

  lemma {:induction false} SumChapterCountsCons(q: QuestionDetail, rest: seq<QuestionDetail>, keys: seq<string>)
    ensures SumChapterCounts([q] + rest, keys) == Hits(q, keys) + SumChapterCounts(rest, keys)
  {
    if keys != [] {
      assert ([q] + rest)[1..] == rest;
      SumChapterCountsCons(q, rest, keys[1..]);
    }
  }

  /**
   * Over a duplicate-free list of non-empty chapter names that covers every
   * chapter the questions are filed under, the chapter counts add up to the
   * number of questions filed under a chapter.
   */
  lemma {:induction false} SumOverCoveringKeys(qs: seq<QuestionDetail>, keys: seq<string>)
    requires JsSort.Distinct(keys)
    requires "" !in keys
    requires forall q :: q in qs && HasChapter(q) ==> q.chapter.value in keys
    ensures SumChapterCounts(qs, keys) == CountWithChapter(qs)
  {
    if qs == [] {
      ZeroCounts(keys);
    } else {
      assert qs == [qs[0]] + qs[1..];
      SumChapterCountsCons(qs[0], qs[1..], keys);
      HitsDistinct(qs[0], keys);
      SumOverCoveringKeys(qs[1..], keys);
    }
  }

  lemma {:induction false} ZeroCounts(keys: seq<string>)
    ensures SumChapterCounts([], keys) == 0
  {
    if keys != [] {
      ZeroCounts(keys[1..]);
    }
  }

  lemma {:induction false} CountWithChapterBound(qs: seq<QuestionDetail>)
    ensures CountWithChapter(qs) <= |qs|
    ensures CountWithChapter(qs) == |qs| - CountWithoutChapter(qs)
  {
    if qs != [] {
      CountWithChapterBound(qs[1..]);
    }
  }

  /** Number of questions with no (or an empty) chapter. */
  function CountWithoutChapter(qs: seq<QuestionDetail>): nat {
    if qs == [] then 0
    else (if HasChapter(qs[0]) then 0 else 1) + CountWithoutChapter(qs[1..])
  }

  /**
   * The dropdown's per-chapter counts add up to the number of questions that
   * have a chapter: every question without one is left out, so the sum is at
   * most the length of the question list.
   */
  lemma DropdownTotalSpec(qs: seq<QuestionDetail>)
    ensures DropdownTotal(qs) == |qs| - CountWithoutChapter(qs)
    ensures DropdownTotal(qs) <= |qs|
  {
    UniqueChaptersSpec(qs);
    ChapterCountsSpec(qs);
    var u := UniqueChapters(qs);
    forall q | q in qs && HasChapter(q) ensures q.chapter.value in u {
      ChapterPresent(qs, q.chapter.value);
    }
    SumOverCoveringKeys(qs, u);
    CountWithChapterBound(qs);
  }
}
