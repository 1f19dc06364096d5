/**
 * The report page (App.tsx): which subject tab is active, the lookup of the
 * active subject's data, and the overview accuracy flag.
 */
module App {
  import opened Types
  import SubjectCard

  /** The overview accuracy is flagged in red below 70 (line 68). */
  predicate IsWeakOverallAccuracy(accuracy: real) {
    accuracy < 70.0
  }

  /**
   * The overview and the subject card use different cutoffs: everything the
   * overview flags, the card flags too, but a value in [70, 75) is flagged only
   * by the card.
   */
  lemma ThresholdsDiffer(accuracy: real)
    ensures IsWeakOverallAccuracy(accuracy) ==> SubjectCard.IsWeakSubjectAccuracy(accuracy)
    ensures 70.0 <= accuracy < 75.0 <==>
      SubjectCard.IsWeakSubjectAccuracy(accuracy) && !IsWeakOverallAccuracy(accuracy)
  {
  }

  /** `subjects.find(s => s.name === name)`: the first subject with that name. */
  function FindSubject(subjects: seq<SubjectData>, name: string): (r: Option<SubjectData>)
    ensures r.None? <==> forall s :: s in subjects ==> s.name != name
    ensures r.Some? ==> r.value in subjects && r.value.name == name
  {
    if subjects == [] then None
    else if subjects[0].name == name then Some(subjects[0])
    else
      assert forall s :: s in subjects <==> s == subjects[0] || s in subjects[1..];
      FindSubject(subjects[1..], name)
  }

  /** The subject found is the one at the first index whose name matches. */
  lemma {:induction false} FindSubjectIsFirst(subjects: seq<SubjectData>, name: string, i: nat)
    requires i < |subjects| && subjects[i].name == name
    requires forall j :: 0 <= j < i ==> subjects[j].name != name
    ensures FindSubject(subjects, name) == Some(subjects[i])
  {
    if i > 0 {
      FindSubjectIsFirst(subjects[1..], name, i - 1);
    }
  }

  /**
   * `activeSubjectData`: the subject named `name`, or else the first subject;
   * `undefined` (None) only when there are no subjects at all.
   */
  function ActiveSubjectData(subjects: seq<SubjectData>, name: string): (r: Option<SubjectData>)
    ensures r.Some? <==> |subjects| > 0
    ensures (exists s :: s in subjects && s.name == name) ==> r.Some? && r.value.name == name
    ensures (forall s :: s in subjects ==> s.name != name) && |subjects| > 0 ==> r == Some(subjects[0])
  {
    match FindSubject(subjects, name)
    case Some(s) => Some(s)
    case None => if |subjects| > 0 then Some(subjects[0]) else None
  }

  /** Subject names are pairwise different (as the tab keys require). */
  predicate UniqueNames(subjects: seq<SubjectData>) {
    forall i, j :: 0 <= i < j < |subjects| ==> subjects[i].name != subjects[j].name
  }

  /** After clicking tab `i`, the lookup returns exactly subject `i` when names are unique. */
  lemma ClickedTabIsShown(subjects: seq<SubjectData>, i: nat)
    requires i < |subjects| && UniqueNames(subjects)
    ensures ActiveSubjectData(subjects, subjects[i].name) == Some(subjects[i])
  {
    FindSubjectIsFirst(subjects, subjects[i].name, i);
  }

  /**
   * When the active name is tab `i`'s and names are unique, exactly tab `i` is
   * styled as active.
   */
  lemma ExactlyOneTabActive(view: ReportView, i: nat)
    requires i < |view.subjects| && UniqueNames(view.subjects)
    requires view.activeSubject == view.subjects[i].name
    ensures forall j :: 0 <= j < |view.subjects| ==> (view.IsTabActive(j) <==> j == i)
  {
  }

  /** The page: the static data, the active tab's name, and the mounted subject card. */
  class ReportView {
    const subjects: seq<SubjectData>
    var activeSubject: string
    var card: SubjectCard.CardSelection

    /** The initial tab is the first subject's, which requires at least one subject. */
    constructor (data: seq<SubjectData>)
      requires |data| > 0
      ensures subjects == data && activeSubject == data[0].name
      ensures fresh(card) && card.IsInitial()
    {
      subjects := data;
      activeSubject := data[0].name;
      card := new SubjectCard.CardSelection();
    }

    /** The subject the card shows. */
    function ActiveData(): (r: SubjectData)
      reads this
      requires |subjects| > 0
      ensures r in subjects
      ensures (exists s :: s in subjects && s.name == activeSubject) ==> r.name == activeSubject
    {
      ActiveSubjectData(subjects, activeSubject).value
    }

    /** The tab at index `j` is styled as active. */
    predicate IsTabActive(j: nat)
      reads this
      requires j < |subjects|
    {
      activeSubject == subjects[j].name
    }

    /**
     * Clicking tab `i` makes its name the active subject. The card is keyed by
     * that name, so a different name mounts a fresh card with its initial
     * selection, while the same name keeps the card and its filters.
     */
    method SelectTab(i: nat)
      requires i < |subjects|
      modifies this
      ensures activeSubject == subjects[i].name
      ensures ActiveData().name == subjects[i].name
      ensures UniqueNames(subjects) ==> ActiveData() == subjects[i]
      ensures UniqueNames(subjects) ==> forall j :: 0 <= j < |subjects| ==> (IsTabActive(j) <==> j == i)
      ensures old(activeSubject) != activeSubject ==> fresh(card) && card.IsInitial()
      ensures old(activeSubject) == activeSubject ==> card == old(card)
    {
      if activeSubject != subjects[i].name {
        card := new SubjectCard.CardSelection();
      }
      activeSubject := subjects[i].name;
      assert subjects[i] in subjects;
      if UniqueNames(subjects) {
        ClickedTabIsShown(subjects, i);
        ExactlyOneTabActive(this, i);
      }
    }
  }
}
