/**
 * The selection state of one subject card (components/SubjectCard.tsx): whether
 * the question table is open, the status filter and the chapter filter, and the
 * user actions that change them. The rows the table shows are a function of
 * this state and the subject's questions.
 */
module SubjectCard {
  import opened Types
  import opened QuestionTable

  /** The subject card's accuracy figure is flagged in red below 75 (line 402). */
  predicate IsWeakSubjectAccuracy(accuracy: real) {
    accuracy < 75.0
  }

  class CardSelection {
    var showQuestionTable: bool
    var activeFilter: StatusFilter
    var activeChapterFilter: Option<string>

    /** A freshly mounted card: table closed, every status, no chapter. */
    predicate IsInitial()
      reads this
    {
      !showQuestionTable && activeFilter == All && activeChapterFilter == None
    }

    constructor ()
      ensures IsInitial()
    {
      showQuestionTable := false;
      activeFilter := All;
      activeChapterFilter := None;
    }

    /** `filteredQuestions` for the current filters. */
    function VisibleQuestions(qs: seq<QuestionDetail>): seq<QuestionDetail>
      reads this
    {
      FilterQuestions(qs, activeFilter, activeChapterFilter)
    }

    /** A chapter poster is highlighted when its name is the chapter filter. */
    predicate IsPosterActive(name: string)
      reads this
    {
      activeChapterFilter == Some(name)
    }

    /**
     * `handleChapterSelect`: clicking the active chapter's poster clears the
     * chapter filter; clicking any other poster filters on that chapter and
     * opens the table.
     */
    method SelectChapter(name: string)
      modifies this
      ensures old(activeChapterFilter) == Some(name) ==>
        activeChapterFilter == None && showQuestionTable == old(showQuestionTable)
      ensures old(activeChapterFilter) != Some(name) ==>
        activeChapterFilter == Some(name) && showQuestionTable
      ensures activeFilter == old(activeFilter)
      ensures IsPosterActive(name) <==> !old(IsPosterActive(name))
      ensures old(activeChapterFilter) != Some(name) && name != "" ==>
        forall qs: seq<QuestionDetail>, q :: q in VisibleQuestions(qs) ==> q.chapter == Some(name)
    {
      if activeChapterFilter == Some(name) {
        activeChapterFilter := None;
      } else {
        activeChapterFilter := Some(name);
        showQuestionTable := true;
      }
    }

    /** The "View all questions" / "Hide Questions" button. */
    method ToggleTable()
      modifies this
      ensures showQuestionTable == !old(showQuestionTable)
      ensures activeFilter == old(activeFilter) && activeChapterFilter == old(activeChapterFilter)
    {
      showQuestionTable := !showQuestionTable;
    }

    /** The status dropdown, rendered only while the table is open. */
    method ChooseStatus(filter: StatusFilter)
      requires showQuestionTable
      modifies this
      ensures activeFilter == filter
      ensures showQuestionTable == old(showQuestionTable) && activeChapterFilter == old(activeChapterFilter)
      ensures forall qs: seq<QuestionDetail>, q :: q in VisibleQuestions(qs) <==>
        q in qs && MatchesStatus(filter, q) && MatchesChapter(old(activeChapterFilter), q)
    {
      activeFilter := filter;
      forall qs: seq<QuestionDetail>
        ensures forall q :: q in VisibleQuestions(qs) <==> q in qs && Matches(filter, activeChapterFilter, q)
      {
        var rows := FilterQuestions(qs, filter, activeChapterFilter);
      }
    }

    /**
     * The chapter dropdown, rendered only while the table is open: its empty
     * "All Chapters" option clears the filter.
     */
    method ChooseChapter(value: string)
      requires showQuestionTable
      modifies this
      ensures activeChapterFilter == if value == "" then None else Some(value)
      ensures showQuestionTable == old(showQuestionTable) && activeFilter == old(activeFilter)
      ensures value != "" ==>
        forall qs: seq<QuestionDetail>, q :: q in VisibleQuestions(qs) ==> q.chapter == Some(value)
      ensures value == "" ==>
        forall qs: seq<QuestionDetail>, q :: q in VisibleQuestions(qs) <==> q in qs && MatchesStatus(old(activeFilter), q)
    {
      activeChapterFilter := if value == "" then None else Some(value);
      forall qs: seq<QuestionDetail>
        ensures forall q :: q in VisibleQuestions(qs) <==> q in qs && Matches(activeFilter, activeChapterFilter, q)
      {
        var rows := FilterQuestions(qs, activeFilter, activeChapterFilter);
      }
    }
  }

  /**
   * An empty chapter name selected from a poster is stored, yet filters
   * nothing: an empty string is falsy, so the table treats it as no filter.
   */
  lemma EmptyChapterFilterIsNoFilter(qs: seq<QuestionDetail>, statusFilter: StatusFilter)
    ensures FilterQuestions(qs, statusFilter, Some("")) == FilterQuestions(qs, statusFilter, None)
  {
    SameMatchesSameRows(qs, statusFilter, Some(""), None);
  }

  lemma {:induction false} SameMatchesSameRows(qs: seq<QuestionDetail>, statusFilter: StatusFilter,
                                              f: Option<string>, g: Option<string>)
    requires forall q :: q in qs ==> (MatchesChapter(f, q) <==> MatchesChapter(g, q))
    ensures FilterQuestions(qs, statusFilter, f) == FilterQuestions(qs, statusFilter, g)
  {
    if qs != [] {
      assert qs[0] in qs;
      assert forall q :: q in qs[1..] ==> q in qs;
      SameMatchesSameRows(qs[1..], statusFilter, f, g);
    }
  }
}
