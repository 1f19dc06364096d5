/**
 * The record shapes of the report card (types.ts), as Dafny datatypes.
 * The whole report is one constant value; nothing here is ever updated in place.
 * Counts and marks are integers; percentages and accuracies, which the data may
 * give with a fraction, are reals.
 */
module Types {

  /** An optional field (`chapter?: string`) or a nullable state (`string | null`). */
  datatype Option<+T> = None | Some(value: T)

  /** The outcome of one question. */
  datatype Status = Correct | Incorrect | Unattempted

  /** The tag shown beside a subject. */
  datatype SubjectStatus = Strength | NeedsAttention | Neutral

  datatype QuestionDetail = QuestionDetail(
    id: int,
    result: Status,
    marks: int,
    timeSpent: string,
    avgPeerTime: string,
    chapter: Option<string>)

  /** Per-chapter tally; the data is meant to keep correct + incorrect + unattempted == total. */
  datatype ChapterStat = ChapterStat(
    name: string,
    total: int,
    correct: int,
    incorrect: int,
    unattempted: int)

  datatype ChapterBuckets = ChapterBuckets(
    strong: seq<ChapterStat>,
    good: seq<ChapterStat>,
    improve: seq<ChapterStat>)

  datatype QuestionBehavior = QuestionBehavior(
    fastIncorrect: int,
    fastIncorrectAvgTime: string,
    slowIncorrect: int,
    slowIncorrectAvgTime: string,
    unattemptedTimeWasted: string,
    insight: string)

  datatype RankInfo = RankInfo(rank: int, total: int)

  datatype SubjectRanks = SubjectRanks(
    air: RankInfo,
    state: RankInfo,
    section: RankInfo,
    batch: RankInfo,
    program: RankInfo,
    course: RankInfo)

  datatype TimeBreakdown = TimeBreakdown(correct: string, incorrect: string, unattempted: string)

  datatype SubjectData = SubjectData(
    name: string,
    status: SubjectStatus,
    score: int,
    topperScore: int,
    averageScore: int,
    percentile: real,
    totalMarks: int,
    accuracy: real,
    ranks: SubjectRanks,
    timeSpent: string,
    timeBreakdown: TimeBreakdown,
    summaryInsight: string,
    chapters: ChapterBuckets,
    questionBehavior: Option<QuestionBehavior>,
    questions: seq<QuestionDetail>)

  datatype DifficultyLevelName = Easy | Medium | Hard

  datatype DifficultyLevel = DifficultyLevel(level: DifficultyLevelName, total: int, correct: int, accuracy: real)

  datatype Meta = Meta(testName: string, date: string)

  datatype Snapshot = Snapshot(
    score: int,
    totalScore: int,
    rank: int,
    totalStudents: int,
    percentile: real,
    accuracy: real,
    insight: string)

  datatype Competition = Competition(air: int, stateRank: int, cityRank: int, batchRank: int, insight: string)

  datatype Difficulty = Difficulty(breakdown: seq<DifficultyLevel>, insight: string)

  datatype Usage = Usage(total: int, correct: int, incorrect: int, unattempted: int, insight: string)

  datatype AverageBreakdown = AverageBreakdown(correct: string, incorrect: string)

  datatype TimeBlock = TimeBlock(
    correctTimePercent: real,
    incorrectTimePercent: real,
    unattemptedTimePercent: real,
    totalUsed: string,
    allowed: string,
    avgTimePerQ: string,
    insight: string,
    breakdown: TimeBreakdown,
    avgBreakdown: AverageBreakdown)

  datatype Benchmarking = Benchmarking(lowest: real, highest: real, average: real, user: real)

  datatype TestResultData = TestResultData(
    isOffline: Option<bool>,
    meta: Meta,
    snapshot: Snapshot,
    competition: Competition,
    difficulty: Difficulty,
    usage: Usage,
    time: TimeBlock,
    subjects: seq<SubjectData>,
    benchmarking: Benchmarking,
    finalSummary: seq<string>)
}
