/** The capacity theorem and the slot theorem together: when a plan's calendar has no overlap. */
module CalendarPlan {
  import opened Sessions
  import opened Completion
  import opened Numbering
  import opened Assembly
  import opened Planner
  import opened Calendar

  /** A day whose limit plus dated assessments is at most seven gets an overlap-free calendar from every plan that
      fits. */
  lemma PlanIsOverlapFree(ps: seq<Proposal>, candidates: seq<Candidate>, w: Window, assessments: seq<Assessment>,
                          courses: seq<CourseView>, day: int)
    requires DistinctIds(candidates) && PlannedWork(ps, candidates) <= SafeSessions(w)
    requires w.capacity + DatedOn(assessments, day) <= 7
    ensures var order := AssembleOrder(Renumbered(Designed(ps, candidates, w)));
            OverlapFree(Items(order, ById(candidates)) + AssessmentItems(assessments), courses, day)
  {
    var order := AssembleOrder(Renumbered(Designed(ps, candidates, w)));
    var items := Items(order, ById(candidates)) + AssessmentItems(assessments);
    PlanFitsCalendar(ps, candidates, w, assessments);
    assert ItemsOn(items, day) <= w.capacity + DatedOn(assessments, day);
    SevenItemsFit(items, courses, day);
  }
}
