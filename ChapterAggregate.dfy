/**
 * The subject-level counts of a subject card: the sums over the three chapter
 * buckets, the fallback to the question list when those sums are empty, the
 * attempt rate, and each chapter poster's accuracy
 * (components/SubjectCard.tsx, lines 17 and 318-340).
 *
 * `Math.round` of a ratio of integers is computed exactly: the result is the
 * integer nearest to 100 * part / whole, halves rounding up.
 */
module ChapterAggregate {
  import opened Types
  import QuestionTable

  datatype Counts = Counts(correct: int, incorrect: int, unattempted: int, total: int)

  const Zero := Counts(0, 0, 0, 0)

  function Add(a: Counts, b: Counts): Counts {
    Counts(a.correct + b.correct, a.incorrect + b.incorrect, a.unattempted + b.unattempted, a.total + b.total)
  }

  function OfChapter(c: ChapterStat): Counts {
    Counts(c.correct, c.incorrect, c.unattempted, c.total)
  }

  /** The three parts of a tally add up to its total. */
  predicate Consistent(c: Counts) {
    c.correct + c.incorrect + c.unattempted == c.total
  }

  /** Consistent, and no count is negative. */
  predicate WellFormed(c: Counts) {
    Consistent(c) && c.correct >= 0 && c.incorrect >= 0 && c.unattempted >= 0
  }

  /** `allChapters`: the strong, good and improve buckets one after the other. */
  function AllChapters(b: ChapterBuckets): seq<ChapterStat> {
    b.strong + b.good + b.improve
  }

  /** `trueCounts`: the left fold that adds up each chapter's four counts. */
  function TrueCounts(chapters: seq<ChapterStat>): Counts {
    if chapters == [] then Zero
    else Add(TrueCounts(chapters[..|chapters| - 1]), OfChapter(chapters[|chapters| - 1]))
  }

  /** Sum of the correct counts, added from the front. */
  function SumCorrect(chapters: seq<ChapterStat>): int {
    if chapters == [] then 0 else chapters[0].correct + SumCorrect(chapters[1..])
  }

  function SumIncorrect(chapters: seq<ChapterStat>): int {
    if chapters == [] then 0 else chapters[0].incorrect + SumIncorrect(chapters[1..])
  }

  function SumUnattempted(chapters: seq<ChapterStat>): int {
    if chapters == [] then 0 else chapters[0].unattempted + SumUnattempted(chapters[1..])
  }

  function SumTotal(chapters: seq<ChapterStat>): int {
    if chapters == [] then 0 else chapters[0].total + SumTotal(chapters[1..])
  }

  /** The fold over a concatenation is the sum of the folds over the parts. */
  lemma {:induction false} TrueCountsAppend(a: seq<ChapterStat>, b: seq<ChapterStat>)
    ensures TrueCounts(a + b) == Add(TrueCounts(a), TrueCounts(b))
    decreases |b|
  {
    if b != [] {
      var b' := b[..|b| - 1];
      assert (a + b)[..|a + b| - 1] == a + b';
      assert (a + b)[|a + b| - 1] == b[|b| - 1];
      TrueCountsAppend(a, b');
    } else {
      assert a + b == a;
    }
  }

  /** Each field of `trueCounts` is the sum of that field over the chapters. */
  lemma {:induction false} TrueCountsAreFieldSums(chapters: seq<ChapterStat>)
    ensures TrueCounts(chapters) == Counts(SumCorrect(chapters), SumIncorrect(chapters),
                                           SumUnattempted(chapters), SumTotal(chapters))
  {
    if chapters != [] {
      TrueCountsAreFieldSums(chapters[1..]);
      TrueCountsAppend([chapters[0]], chapters[1..]);
      assert [chapters[0]] + chapters[1..] == chapters;
      assert TrueCounts([chapters[0]]) == Add(Zero, OfChapter(chapters[0]));
    }
  }

  /** The subject totals are the sums of the three buckets' totals. */
  lemma BucketTotals(b: ChapterBuckets)
    ensures TrueCounts(AllChapters(b))
         == Add(Add(TrueCounts(b.strong), TrueCounts(b.good)), TrueCounts(b.improve))
  {
    var sg := b.strong + b.good;
    TrueCountsAppend(b.strong, b.good);
    TrueCountsAppend(sg, b.improve);
  }

  /** Which bucket comes first makes no difference to the subject totals. */
  lemma BucketOrderIrrelevant(b: ChapterBuckets)
    ensures TrueCounts(AllChapters(b)) == TrueCounts(b.improve + b.good + b.strong)
  {
    var s, g, i := TrueCounts(b.strong), TrueCounts(b.good), TrueCounts(b.improve);
    BucketTotals(b);
    var ig := b.improve + b.good;
    TrueCountsAppend(b.improve, b.good);
    TrueCountsAppend(ig, b.strong);
    assert TrueCounts(ig + b.strong) == Add(Add(i, g), s);
    AddRotate(s, g, i);
  }

  lemma AddRotate(a: Counts, b: Counts, c: Counts)
    ensures Add(Add(a, b), c) == Add(Add(c, b), a)
  {
  }

  /** When every chapter's parts add up to its total, so do the subject's. */
  lemma {:induction false} AggregatePreservesIdentity(chapters: seq<ChapterStat>)
    requires forall c :: c in chapters ==> Consistent(OfChapter(c))
    ensures Consistent(TrueCounts(chapters))
  {
    if chapters != [] {
      AggregatePreservesIdentity(chapters[..|chapters| - 1]);
    }
  }

  lemma {:induction false} AggregatePreservesWellFormed(chapters: seq<ChapterStat>)
    requires forall c :: c in chapters ==> WellFormed(OfChapter(c))
    ensures WellFormed(TrueCounts(chapters))
    ensures 0 <= TrueCounts(chapters).unattempted <= TrueCounts(chapters).total
  {
    if chapters != [] {
      AggregatePreservesWellFormed(chapters[..|chapters| - 1]);
    }
  }

  /** The question-list tallies, as counts. */
  function QuestionCounts(qs: seq<QuestionDetail>): (r: Counts)
    ensures WellFormed(r) && r.total == |qs|
    ensures r.correct == QuestionTable.CountResult(qs, Correct)
    ensures r.incorrect == QuestionTable.CountResult(qs, Incorrect)
    ensures r.unattempted == QuestionTable.CountResult(qs, Unattempted)
  {
    var t := QuestionTable.QuestionArrayCounts(qs);
    Counts(t.correct, t.incorrect, t.unattempted, t.all)
  }

  /** `displayCounts`: the chapter sums when their total is positive, else the question-list tallies. */
  function DisplayCounts(s: SubjectData): Counts {
    var t := TrueCounts(AllChapters(s.chapters));
    if t.total > 0 then t else QuestionCounts(s.questions)
  }

  /**
   * The chapter sums take precedence whenever their total is positive; otherwise
   * the card shows the question list's tallies, whose total is the number of
   * questions and whose parts are that list's per-result counts.
   */
  lemma DisplayCountsSource(s: SubjectData)
    ensures SumTotal(AllChapters(s.chapters)) > 0 ==>
      DisplayCounts(s) == Counts(SumCorrect(AllChapters(s.chapters)), SumIncorrect(AllChapters(s.chapters)),
                                 SumUnattempted(AllChapters(s.chapters)), SumTotal(AllChapters(s.chapters)))
    ensures SumTotal(AllChapters(s.chapters)) <= 0 ==>
      DisplayCounts(s).total == |s.questions|
      && DisplayCounts(s).correct == QuestionTable.CountResult(s.questions, Correct)
      && DisplayCounts(s).incorrect == QuestionTable.CountResult(s.questions, Incorrect)
      && DisplayCounts(s).unattempted == QuestionTable.CountResult(s.questions, Unattempted)
  {
    TrueCountsAreFieldSums(AllChapters(s.chapters));
  }

  /** With well-formed chapter data, the counts on the card are well-formed whichever source they come from. */
  lemma DisplayCountsWellFormed(s: SubjectData)
    requires forall c :: c in AllChapters(s.chapters) ==> WellFormed(OfChapter(c))
    ensures WellFormed(DisplayCounts(s))
    ensures 0 <= DisplayCounts(s).unattempted <= DisplayCounts(s).total
  {
    AggregatePreservesWellFormed(AllChapters(s.chapters));
  }

  /**
   * `Math.round(part / whole * 100)` on exact rationals: the integer r with
   * r - 1/2 <= 100 * part / whole < r + 1/2.
   */
  function RoundedPercent(part: int, whole: int): (r: int)
    requires whole > 0
    ensures (2 * r - 1) * whole <= 200 * part < (2 * r + 1) * whole
  {
    var n, d := 200 * part + whole, 2 * whole;
    var r := n / d;
    assert n == r * d + n % d;
    assert (2 * r - 1) * whole == r * d - whole;
    assert (2 * r + 1) * whole == r * d + whole;
    r
  }

  /** Multiplying by a positive number keeps a strict order between integers. */
  lemma CancelFactor(x: int, y: int, w: int)
    requires w > 0 && x * w < y * w
    ensures x < y
  {
    assert (y - x) * w == y * w - x * w;
  }

  /** Exactly one integer lies within one half of 100 * part / whole. */
  lemma RoundedPercentUnique(part: int, whole: int, r: int)
    requires whole > 0
    requires (2 * r - 1) * whole <= 200 * part < (2 * r + 1) * whole
    ensures r == RoundedPercent(part, whole)
  {
    var q := RoundedPercent(part, whole);
    assert (2 * r - 1) * whole < (2 * q + 1) * whole;
    CancelFactor(2 * r - 1, 2 * q + 1, whole);
    assert (2 * q - 1) * whole < (2 * r + 1) * whole;
    CancelFactor(2 * q - 1, 2 * r + 1, whole);
  }

  /** A share between none and all of the whole is a percentage between 0 and 100. */
  lemma RoundedPercentBounds(part: int, whole: int)
    requires whole > 0
    ensures 0 <= part <= whole ==> 0 <= RoundedPercent(part, whole) <= 100
    ensures part == 0 ==> RoundedPercent(part, whole) == 0
    ensures part == whole ==> RoundedPercent(part, whole) == 100
  {
    var r := RoundedPercent(part, whole);
    if 0 <= part <= whole {
      assert (-1) * whole < (2 * r + 1) * whole;
      CancelFactor(-1, 2 * r + 1, whole);
      assert (2 * r - 1) * whole < 201 * whole;
      CancelFactor(2 * r - 1, 201, whole);
    }
    if part == 0 {
      RoundedPercentUnique(part, whole, 0);
    }
    if part == whole {
      RoundedPercentUnique(part, whole, 100);
    }
  }

  /** A larger share never rounds to a smaller percentage. */
  lemma RoundedPercentMonotone(part1: int, part2: int, whole: int)
    requires whole > 0 && part1 <= part2
    ensures RoundedPercent(part1, whole) <= RoundedPercent(part2, whole)
  {
    var r1, r2 := RoundedPercent(part1, whole), RoundedPercent(part2, whole);
    assert (2 * r1 - 1) * whole < (2 * r2 + 1) * whole;
    CancelFactor(2 * r1 - 1, 2 * r2 + 1, whole);
  }

  /** `attemptedCount`: the questions answered either way. */
  function AttemptedCount(d: Counts): int {
    d.total - d.unattempted
  }

  /** `attemptRate`: 0 when there is nothing to count, else the rounded percentage of questions attempted. */
  function AttemptRate(d: Counts): (r: int)
    ensures d.total <= 0 ==> r == 0
    ensures d.total > 0 ==> (2 * r - 1) * d.total <= 200 * AttemptedCount(d) < (2 * r + 1) * d.total
    ensures d.total > 0 && 0 <= d.unattempted <= d.total ==> 0 <= r <= 100
  {
    if d.total > 0 then
      RoundedPercentBounds(AttemptedCount(d), d.total);
      RoundedPercent(AttemptedCount(d), d.total)
    else 0
  }

  /** `accuracy` of a chapter poster: 0 for an empty chapter, else the rounded percentage correct. */
  function ChapterAccuracy(c: ChapterStat): (r: int)
    ensures c.total <= 0 ==> r == 0
    ensures c.total > 0 ==> (2 * r - 1) * c.total <= 200 * c.correct < (2 * r + 1) * c.total
    ensures c.total > 0 && 0 <= c.correct <= c.total ==> 0 <= r <= 100
  {
    if c.total > 0 then
      RoundedPercentBounds(c.correct, c.total);
      RoundedPercent(c.correct, c.total)
    else 0
  }

  /** The attempt rate the card shows lies in 0..100 whenever the chapter data is well-formed. */
  lemma SubjectAttemptRateBounds(s: SubjectData)
    requires forall c :: c in AllChapters(s.chapters) ==> WellFormed(OfChapter(c))
    ensures 0 <= AttemptRate(DisplayCounts(s)) <= 100
  {
    DisplayCountsWellFormed(s);
  }

  /** Leaving more questions unattempted never raises the attempt rate. */
  lemma AttemptRateMonotone(d1: Counts, d2: Counts)
    requires d1.total == d2.total && d1.unattempted >= d2.unattempted
    ensures AttemptRate(d1) <= AttemptRate(d2)
  {
    if d1.total > 0 {
      RoundedPercentMonotone(AttemptedCount(d1), AttemptedCount(d2), d1.total);
    }
  }
}
