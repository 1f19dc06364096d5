/**
 * Worked values from the report's static data (constants.ts): the Biology
 * subject's chapter buckets and question list, and what the card derives from
 * them.
 */
module ReportData {
  import opened Types
  import opened QuestionTable
  import opened ChapterAggregate

  const BiologyStrong: seq<ChapterStat> := [ChapterStat("Human Physiology", 15, 14, 1, 0), ChapterStat("Plant Kingdom", 10, 9, 1, 0)]

  const BiologyGood: seq<ChapterStat> := [ChapterStat("Genetics", 12, 8, 3, 1), ChapterStat("Cell Biology", 8, 6, 2, 0)]

  const BiologyImprove: seq<ChapterStat> := [
    ChapterStat("Ecology", 10, 4, 6, 0), ChapterStat("Biotech", 8, 3, 4, 1),
    ChapterStat("Reproduction", 12, 5, 5, 2), ChapterStat("Animal Kingdom", 8, 3, 4, 1),
    ChapterStat("Morphology", 9, 4, 5, 0), ChapterStat("Cell Cycle", 7, 2, 4, 1)]

  const BiologyChapters := ChapterBuckets(BiologyStrong, BiologyGood, BiologyImprove)

  const BiologyQuestions: seq<QuestionDetail> := [
    QuestionDetail(1, Correct, 4, "30s", "45s", Some("Human Physiology")),
    QuestionDetail(2, Incorrect, -1, "12s", "40s", Some("Ecology")),
    QuestionDetail(3, Correct, 4, "55s", "50s", Some("Genetics")),
    QuestionDetail(4, Incorrect, -1, "15s", "60s", Some("Biotech")),
    QuestionDetail(5, Unattempted, 0, "5s", "70s", Some("Reproduction"))]

  lemma BiologyStrongCounts()
    ensures TrueCounts(BiologyStrong) == Counts(23, 2, 0, 25)
  {
    TrueCountsAreFieldSums(BiologyStrong);
    assert SumTotal(BiologyStrong) == 25;
  }

  lemma BiologyGoodCounts()
    ensures TrueCounts(BiologyGood) == Counts(14, 5, 1, 20)
  {
    TrueCountsAreFieldSums(BiologyGood);
    assert SumTotal(BiologyGood) == 20;
  }

  lemma BiologyImproveCounts()
    ensures TrueCounts(BiologyImprove) == Counts(21, 28, 5, 54)
  {
    TrueCountsAreFieldSums(BiologyImprove);
    assert SumTotal(BiologyImprove) == 54;
  }

  /** Biology's buckets add up to 99 questions, 6 of them unattempted: the card shows an attempt rate of 94%. */
  lemma BiologyAttemptRate()
    ensures TrueCounts(AllChapters(BiologyChapters)) == Counts(58, 35, 6, 99)
    ensures AttemptRate(TrueCounts(AllChapters(BiologyChapters))) == 94
  {
    NinetyThreeOfNinetyNine();
    BiologyStrongCounts();
    BiologyGoodCounts();
    BiologyImproveCounts();
    BucketTotals(BiologyChapters);
  }

  lemma NinetyThreeOfNinetyNine()
    ensures AttemptRate(Counts(58, 35, 6, 99)) == 94
  {
  }

  /** Ecology's poster shows 4 of 10 correct as 40%; Human Physiology's 14 of 15 as 93%. */
  lemma BiologyChapterAccuracies()
    ensures ChapterAccuracy(ChapterStat("Ecology", 10, 4, 6, 0)) == 40
    ensures ChapterAccuracy(ChapterStat("Human Physiology", 15, 14, 1, 0)) == 93
  {
  }

  /** Biology's question list: two correct, two incorrect, one unattempted; the Incorrect filter keeps questions 2 and 4. */
  lemma BiologyQuestionTallies()
    ensures QuestionArrayCounts(BiologyQuestions) == StatusTally(5, 2, 2, 1)
    ensures FilterQuestions(BiologyQuestions, Only(Incorrect), None) == [BiologyQuestions[1], BiologyQuestions[3]]
  {
    var qs := BiologyQuestions;
    assert CountResult(qs, Correct) == 2 && CountResult(qs, Incorrect) == 2;
    assert FilterQuestions(qs[4..], Only(Incorrect), None) == [];
    assert FilterQuestions(qs[3..], Only(Incorrect), None) == [qs[3]];
    assert FilterQuestions(qs[2..], Only(Incorrect), None) == [qs[3]];
    assert FilterQuestions(qs[1..], Only(Incorrect), None) == [qs[1], qs[3]];
  }

  /**
   * Two questions, Ecology answered wrong and Genetics answered right: the status
   * filter keeps Genetics, the chapter filter keeps Ecology, and both together
   * on a pair that no question has keep nothing.
   */
  lemma TwoQuestionFilters()
    ensures var qs := [QuestionDetail(1, Incorrect, -1, "", "", Some("Ecology")), QuestionDetail(2, Correct, 4, "", "", Some("Genetics"))];
      && FilterQuestions(qs, Only(Correct), None) == [qs[1]]
      && FilterQuestions(qs, All, Some("Ecology")) == [qs[0]]
      && FilterQuestions(qs, Only(Correct), Some("Ecology")) == []
  {
  }
}
