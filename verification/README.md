# Nahaj study assistant: a verified model

Nahaj plans a semester for a student, asks for approval, writes the approved plan to a calendar, and generates
quizzes from course material. This project models the parts of it that make promises, in Dafny 4.11, and proves
what those promises amount to. `dafny verify dfyconfig.toml` checks everything.

## What is modelled

| part | modules |
|---|---|
| The planner: collecting work, sizing it, placing sessions, numbering and printing them | `Effort`, `OpenDay`, `Sessions`, `RuleScheduler`, `Aims`, `Validator`, `Admission`, `LegalDesigns`, `Completion`, `Precedence`, `PassDays`, `Numbering`, `Assembly`, `Candidates`, `Collecting`, `Planner`, `Limits` |
| Planning again from a stored plan | `Replan`, `ReplanLaws`, `ReplanGrowth` |
| The approval workflow and the calendar write | `Calendar`, `CalendarPlan`, `TaskStore`, `Approval`, `Workflow`, `WorkflowLaws`, `RunOwnership`, `Pauses` |
| The quiz pipeline, from raw candidates to the stored quiz | `Quiz`, `QuizPipeline` |
| Three algorithms: SQL LIKE with its pattern cache, overlapping chunks, rank fusion | `Like`, `Chunks`, `Fusion` |
| Sorting, counting, rounding, trimming and session titles | `Prelude`, `Text` |

Loops of the original are methods with loops, proved equal to a specification function; the lemmas beside them say
what that function guarantees. The supervisor, the task store and the pattern cache are classes whose fields the
methods update; renumbering rewrites an array in place.

Conventions of the model:

- Days are integers; times are minutes since day 0. A day's text in a model's proposal is a free string, so the
  validator's sort by day text is sorted by arbitrary text.
- Mastery, scores and priorities are reals. Rounding is half-to-even, on exact values.
- What a language model returns (designs, exclusions, horizons, quiz candidates, verdicts on messages, routes), the
  order in which the database lists rows, new task identifiers, BM25 scores and vector hits are arbitrary inputs.
- The graph library is a map from run id to the payload a run is paused with. Turns are sequential.

## What the proofs found

- **The daily session limit is not unconditional.** The repository's `README.md` (line 151) says it is never
  exceeded. The search gives up after the window and 365 overflow days and returns the next day unchecked
  (`OpenDay.NextOpenHasRoomIff` says exactly when). For the rule scheduler with deadlines up to the finish date, the
  limit holds exactly when, from every day on, no more work aims there than the days up to 366 past the finish date can
  take, a condition on the candidates alone (`Aims.RuleLimitIff`). Whatever the model proposes, it holds for every plan
  of at most 367 * capacity sessions, 732 * capacity without a finish date, and the size of a plan is known from its
  inputs (`Completion.PlannedWorkFits`). Two whole plans, from courses and semester through collecting, sizing and
  scheduling, break the limit: 368 sessions carried over at one a day (`Limits.LimitCanBeExceeded`), and a design of
  eight sessions for each of 46 documents (`Limits.DesignCanExceedLimit`).
- **A load sized to fit the window does not mean the plan finishes inside it.** For any candidates and deadlines the
  rule scheduler finishes inside the window exactly when, from every day on, no more work aims there than the rest of
  the window can take (`Aims.RuleFinishesIff`). It is not enough that the work fits as a whole: four documents of 60
  pages due in four days raise the load to the 5 a day that just fits, and a session still lands past the finish date
  while the first day has room (`Limits.SizedPlanMissesFinish`). When all work aims at the first day the two conditions
  are the totals one would expect (`Aims.StartersFinishIff`, `Aims.RuleLimitIsSharp`).
- **Replanning settles, except for titles that look like a session.** A second run adds nothing exactly when every
  piece of work a course calls for is recognised in the titles the first run printed
  (`ReplanLaws.NextRunAddsNothingIff`). A course of one document either keeps its sessions through every run or gains
  them anew with each, depending only on whether its printed title reads back as itself
  (`ReplanGrowth.LoneDocumentSessions`); a one-page document named "Notes (session 1 of 2)" has n sessions after n runs
  (`ReplanGrowth.SuffixedTitleMultiplies`).
- **An approval writes its own conversation's draft because request ids hold no colon.** Run ids are built as
  `thread:request` (`backend/workflow.py:154`), and thread ids do hold colons (`backend/main.py:1254`). Two threads
  can share a run only when a request id starts with the rest of the longer thread id and a colon
  (`WorkflowLaws.RunsCollideIff`). Every request id of the service is the text of a UUID
  (`backend/supervisor_contract.py:25`), so for all its runs, whatever the thread ids, a turn writes exactly the draft
  last shown on its thread, and only when it approves it (`WorkflowLaws.WritesExactlyApprovedDrafts`); thread ids
  without a colon would do as well (`WorkflowLaws.ColonFreeThreadsAreSeparate`). The supervisor itself checks neither.
  What every turn asks and writes follows from the messages and the questions shown alone (`Pauses.TurnIsDetermined`);
  a shown question stays open until its student says something that is understood, whatever else happens
  (`Pauses.PausedIffOpen`, `Pauses.OpenUntilUnderstood`). For a hypothetical caller that supplies its own,
  `RunOwnership.ApprovalWritesOwnDraftIff` says exactly whose draft an approval writes, and
  `WorkflowLaws.CollidingRunsCrossWrite` shows it writing another thread's.
- **Approving twice adds exactly one task per event whose course has no id** (`Approval.SecondApprovalAdds`), so it
  adds nothing exactly when every course resolves (`Approval.SecondApprovalAddsNothingIff`). `Approval.ApproveTwice`
  states this of the store itself, from its own snapshots.
- **The daily load is sized by the horizon the model returned even after the plan discarded it as past.** A discarded
  horizon raises the load exactly when it still precedes the end of the semester, the asked load is below 8 and the
  effort exceeds asked load * days (`Planner.DiscardedHorizonRaisesLoadIff`). With a horizon of yesterday and one
  document of 13 pages, one session a day becomes two (`Limits.PastHorizonRaisesLoad`).

## Model

| member | source | states |
|---|---|---|
| Text.DecRoundTrip | backend/agents.py:1717 | the decimal text printed into a title is all digits and reads back as the number |
| Text.BaseTitleOfPrinted | backend/agents.py:1009-1012 | the session suffix parser recovers the trimmed title from every printed "(session i of n)" title |
| Text.BaseTitleTrimmed | backend/agents.py:1009-1012 | a recovered base title carries no outer white space |
| Effort.EffortInRange | backend/agents.py:994-1006 | effort is between 1 and 8 sessions for any length and mastery |
| Effort.EffortMonotone | backend/agents.py:994-1006 | effort never falls as pages grow and never rises as mastery grows, through half-to-even rounding |
| Effort.EffortCoversPages | backend/agents.py:998-1002 | without mastery a document gets the fewest sessions of twelve pages that cover it, at least one and at most six; work without pages gets one |
| Effort.EffortIsNearest | backend/agents.py:1003-1006 | with mastery it gets those sessions times 1.75 for a topic not known at all, down to 0.6 for one fully known, to the nearest whole number between 1 and 8 |
| Effort.EffortAtTheEnds | backend/agents.py:1003-1006 | what 1 to 6 sessions become at mastery 0 and at mastery 1, half-way cases to the even number |
| Effort.WeakTopicsGain | backend/agents.py:1003-1006 | a topic known to at most a fifth gets strictly more sessions than one never tested, one known to nine tenths never more |
| Effort.DesignCapacity | backend/agents.py:1282-1306 | the daily load equals its specification; it is 1 to 8; when a finish date bounds the window it is 8 or fits all effort into the window; it is never below what was asked (up to 8) and is raised no further than the work demands |
| Effort.HorizonRaisesIff | backend/agents.py:1299-1306 | a horizon raises the load if and only if it bounds the window, the asked load is below 8, and the effort exceeds asked load * days; otherwise the load is the asked one up to 8 |
| OpenDay.NextOpenDay | backend/agents.py:1404-1438 | the three-phase scan terminates and equals one simple search for the first day with room, whatever the deadline |
| OpenDay.NextOpenIsLeast | backend/agents.py:1404-1438 | when an inspected day has room, the least such day is returned |
| OpenDay.NextOpenFinds | backend/agents.py:1414-1437 | no day with room is passed over up to 365 days past the finish date, up to 730 days from the start when none bounds the search, and up to a deadline without one |
| OpenDay.NextOpenHasRoomIff | backend/agents.py:1425-1438 | the returned day has room exactly when an inspected day does or the unchecked day after the overflow does |
| OpenDay.NextOpenSkipsFullDays | backend/agents.py:1404-1438 | every day passed over was full, and a full answer means 367 full days in a row, 732 without a finish date |
| OpenDay.FullDaysAddUp | backend/agents.py:1425-1438 | pigeonhole: a stretch of full days carries at least capacity sessions per day |
| Sessions.PlacedDayHasRoom | backend/agents.py:1404-1438 | a placed session lands on a day with room while fewer than 367 * capacity are placed, 732 * capacity without a finish date |
| Sessions.GrowthStaysWithinCapacity | backend/agents.py:1431-1438 | any list grown by the passes to at most 367 * capacity sessions (732 * capacity without a finish date) respects the daily limit on every day |
| RuleScheduler.RuleSchedule | backend/agents.py:1440-1480 | the scheduling loops equal the specification Rule: ordered candidates, each spread over its window |
| RuleScheduler.RuleAccountsForAll | backend/agents.py:1460-1480 | every id gets exactly the sessions its candidates ask for, and every step places a session legally |
| RuleScheduler.RuleSize | backend/agents.py:1460-1480 | the schedule has exactly as many sessions as the candidates ask for |
| RuleScheduler.TargetsAdvanceInsideWindow | backend/agents.py:1463-1468 | a candidate's target days never go back, and stay inside its window, its deadline and the finish date |
| RuleScheduler.TargetsAreEven | backend/agents.py:1468 | session i of n aims within half a day of i / n of the candidate's stretch |
| RuleScheduler.SpanEnds | backend/agents.py:1463-1466 | that stretch ends on the candidate's own deadline if it is to come, else on the finish date if that is, else there is none |
| Precedence.RuleFollowsPriority | backend/agents.py:1452-1459 | of two sessions the owner of the earlier one has the higher priority, or the same and the earlier deadline (else finish date, else latest date), or also that and the first folded title |
| Precedence.RuleYieldsToPriority | backend/agents.py:1452-1470 | a day a session wanted and passed over was full, and every session on it belongs to a candidate that comes first in that order |
| RuleScheduler.RuleLands | backend/agents.py:1467-1470 | each session belongs to a candidate, carries its index and total, and is on the first open day from its target |
| RuleScheduler.RuleSpillsOnlyWhenFull | backend/agents.py:1431-1438 | whatever the deadlines, a session passes min(deadline, finish date) only if every day from its target to that bound was full; for a deadline inside the window the target itself never passes it |
| RuleScheduler.RuleDaysBounded | backend/agents.py:1425-1438 | with deadlines inside the window no session lands before the start or more than 366 days past the finish date |
| RuleScheduler.RuleFits | backend/agents.py:1440-1480 | at most 367 * capacity sessions asked for (732 * capacity without a finish date): the daily limit holds |
| Aims.RuleFinishesIff | backend/agents.py:1440-1480 | for any candidates and deadlines, the schedule finishes inside the window if and only if from every day on no more sessions aim there than the rest of the window can take |
| Aims.RuleLimitIff | backend/agents.py:1425-1470 | with deadlines up to the finish date, the schedule keeps the daily limit if and only if from every day on no more sessions aim there than the days up to 366 past the finish date can take |
| Aims.OpenEndedLimitIff | backend/agents.py:1425-1470 | without a finish date or a deadline to come, the daily limit holds if and only if at most 732 * capacity sessions are asked for |
| Aims.RuleCannotExceed | backend/agents.py:1425-1438 | a schedule within the limit over a D-day window has at most (D + 366) * capacity sessions |
| Validator.DeclaredDepth | backend/agents.py:1536-1559 | the counting loop gives, for exactly the known proposed ids, the clamped maximum of stated and proposed sessions |
| Validator.UsableDay | backend/agents.py:1516-1521 | the day a proposal ends up on: its own when inside and not full, otherwise what the search gives |
| Admission.RelocatedToFirstOpen | backend/agents.py:1516-1521 | a proposal outside the window lands on the first open day from the start, one on a full day on the first open day after it, any other on its own day |
| Validator.ValidateSessions | backend/agents.py:1482-1534 | the validating loop equals admitting the sorted proposals one by one |
| Validator.AdmittedAreSound | backend/agents.py:1501-1533 | admitted sessions have known ids, unique keys, counts up to the declared depth, normalised totals, trimmed focus and legal days |
| Validator.ValidatedIffProposed | backend/agents.py:1501-1515 | an id survives validation if and only if it is a candidate and some proposal for it has a readable day |
| Admission.ValidatedSources | backend/agents.py:1500-1533 | every validated session comes from a proposal of its candidate with its number and trimmed focus and lands as that one's day calls for; proposals are read by day text, then candidate |
| Admission.ValidatedCount | backend/agents.py:1510-1515 | a candidate keeps exactly one session per number proposed for it on a readable day, up to its declared depth |
| Admission.DepthIsExact | backend/agents.py:1536-1559 | the declared depth reaches every stated total and the number of proposals up to 8, and is 1, 8 or one of them |
| LegalDesigns.LegalDesignUntouched | backend/agents.py:1482-1534 | a design that obeys the rules comes out as the same multiset with only totals normalised and focus trimmed |
| LegalDesigns.InWindowStaysWithinCapacity | backend/agents.py:1482-1534 | sessions placed by the passes that all stay inside a bounded window respect the daily limit, however many there are |
| LegalDesigns.ValidationIdempotent | backend/agents.py:1482-1559 | validating an output that stays inside the window again gives the same multiset |
| Completion.TallySessions | backend/agents.py:1574-1582 | the rebuilt counters are the true counts per candidate and per day |
| Completion.PlaceLacking | backend/agents.py:1589-1611 | exactly the lacking sessions are added, as the specification of top-up places them |
| Completion.TopUp | backend/agents.py:1561-1612 | the top-up loop equals its specification and reports how many it added |
| Completion.TopUpReachesDepth | backend/agents.py:1561-1612 | afterwards every known id present holds the maximum of its sessions and its declared depth, every other id what it had, and earlier sessions stand |
| PassDays.TopUpExtendsOwnWork | backend/agents.py:1589-1600 | every session added by top-up is on the first open day after the largest day of its candidate's earlier sessions, or from the start when that would begin past the finish date |
| PassDays.AddedSessionsFollow | backend/agents.py:1590-1600 | in a design, an added session comes after every earlier one of its candidate with only full days between, unless the day after the last is past the finish date; then it takes the first open day of the window |
| Precedence.TopUpFollowsIds | backend/agents.py:1584 | top-up serves the candidates in the order of their ids |
| Completion.Backfill | backend/agents.py:1614-1645 | the backfill loop equals its specification and reports the number of missing candidates |
| Completion.BackfillCoversMissing | backend/agents.py:1614-1645 | a candidate without sessions gets its full effort, every other keeps its count, and earlier sessions stand |
| PassDays.BackfillRefits | backend/agents.py:1639-1644 | every backfilled session is one of a left-out candidate's own rule schedule, on the first open day from where that put it |
| Precedence.BackfillFollowsPriority | backend/agents.py:1635-1638 | left-out candidates are served by priority, then by folded title |
| Completion.DesignSessions | backend/agents.py:1819-1826 | the plan's branch: a design that keeps a session is completed, otherwise the rule schedule is used, and the reported origin says which |
| Completion.PassesKeepSessions | backend/agents.py:1819-1823 | the validated sessions are a prefix of the topped-up ones, and those of the final ones |
| Completion.PlanWithinCapacity | backend/agents.py:1819-1826 | for any proposals, a final plan of at most 367 * capacity sessions (732 * capacity without a finish date) respects the daily limit |
| Completion.PlanDepthIsExact | backend/agents.py:1482-1645 | each candidate ends with the declared depth if a proposal of it was usable, else with max(1, effort); unknown ids get nothing; depths are 1 to 8 |
| Completion.PlannedWorkFits | backend/agents.py:1482-1645 | the plan's size is known from its inputs, and up to 367 * capacity (732 * capacity without a finish date) it respects the daily limit |
| Numbering.Renumber | backend/agents.py:1647-1660 | the in-place pass leaves the array equal to the specification in which a session's number is its rank in date order |
| Numbering.WriteNumbers | backend/agents.py:1655-1660 | the writing loop, session by session in visiting order |
| Numbering.CandidateTotals | backend/agents.py:1651-1654 | the counting loop gives each candidate's number of sessions |
| Numbering.RenumberedKeepsPlaces | backend/agents.py:1647-1660 | only number and total change; the total is the candidate's count and 1 <= number <= total |
| Numbering.RenumberedInDateOrder | backend/agents.py:1655-1660 | a candidate's numbers differ, and they follow its days |
| Numbering.RenumberedUsesEveryNumber | backend/agents.py:1647-1660 | a candidate uses exactly the numbers 1 to its count |
| Assembly.Assemble | backend/agents.py:1697-1764 | the loop produces the course tasks, schedule rows and calendar items of the sorted sessions |
| Assembly.OneOfEachPerSession | backend/agents.py:1710-1750 | exactly one task, one row and one study item per session |
| Assembly.ViewsAgree | backend/agents.py:1714-1750 | the row, the calendar item and the task of a session agree on its day, its title (numbered when its work spans several sessions) and its description with the focus, in its own course |
| Assembly.RowsInDateOrder | backend/agents.py:1647-1660 | schedule rows are in date order, and each candidate's rows count up |
| Assembly.TitlesRecoverWork | backend/agents.py:1714-1717 | the title printed for a session leads back to the trimmed title of its candidate |
| Assembly.CalendarLoad | backend/agents.py:1740-1763 | a day's calendar items are its sessions plus its dated assessments |
| Assembly.AssessmentsAnnounced | backend/agents.py:1751-1763 | the calendar announces exactly the dated assessments, each on its own day |
| Candidates.GroupTasks | backend/agents.py:1173-1180 | earlier sessions collapse into one group per folded base title, finished work left out |
| Candidates.CollectGroups | backend/agents.py:1182-1198 | each group becomes one candidate with its session count or its effort, whichever is larger |
| Candidates.CollectPreps | backend/agents.py:1200-1229 | preparation work not yet planned, every titled assessment, and the titles seen so far |
| Candidates.CollectStudies | backend/agents.py:1231-1250 | unfinished documents not yet planned, sized by pages and mastery |
| Candidates.CollectReviews | backend/agents.py:1252-1276 | weak topics below the mastery target that are not yet planned |
| Candidates.CollectCourse | backend/agents.py:1147-1276 | one course's drafts in the order carried-over, preparation, study, review |
| Candidates.CollectCandidates | backend/agents.py:1088-1278 | all courses' candidates, numbered in order, and all assessments |
| Candidates.CollectedIdsDistinct | backend/agents.py:1131-1145 | candidate ids never repeat and every candidate points to its course |
| Candidates.FocusIsDropped | backend/agents.py:1014-1018 | a focus note cannot compound: the description printed for a session leads back to the trimmed description of its work |
| Collecting.NearestIsEarliest | backend/agents.py:1153 | the earliest dated deadline of a course, or the end of the semester when none is dated |
| Collecting.MasteryApplies | backend/agents.py:1020-1032 | a title's mastery is the last rating of its own topic, else of a rated topic that contains it or is contained in it, else none |
| Collecting.LengthOfLastDocument | backend/agents.py:1166-1169 | a title takes its page count from the last document it names or studies |
| Collecting.GroupsStandForTasks | backend/agents.py:1173-1180 | one group per piece of unfinished work, counting all its tasks and keeping the first |
| Collecting.DraftsJustified | backend/agents.py:1182-1276 | every draft comes from a task, deadline, document or weak rating of its course, with the effort, mastery, date and title that one calls for |
| Collecting.NothingForgotten | backend/agents.py:1171-1276 | some draft carries the title of every unfinished task, of the preparation for every titled deadline, of every unfinished document and of every topic rated below 0.7 |
| Collecting.AssessmentsAreDeadlines | backend/agents.py:1200-1210 | every titled deadline becomes an assessment of its course on its own date, and nothing else does |
| Planner.ScopedCandidates | backend/agents.py:1308-1328 | scoping keeps ids distinct and course positions valid, including when everything is excluded |
| Planner.ScopeIsExact | backend/agents.py:1316-1324 | the scope is exactly the candidates that are not excluded, in order, or all of them when none would be left |
| Planner.UrgencyFalls | backend/agents.py:1038-1042 | an earlier deadline is no less urgent, an overdue one counts as due today, and having none counts as four weeks' notice |
| Planner.PriorityRises | backend/agents.py:1038-1051 | more urgency, a weaker topic or a weightier reason never lowers the priority, and a weightier reason alone raises it, through rounding to four decimals |
| Planner.PlanWindow | backend/agents.py:1779-1817 | the window starts no earlier than today and ends at an upcoming horizon cut by the semester; its load is the asked one up to 8 unless a horizon binds it, and then it is 8 or fits the work and is raised no further than that |
| Planner.WindowIsClear | backend/agents.py:1779-1816 | the window starts today or with the semester, whichever is later, ends with the semester or on an earlier horizon that is not past, and is open only without both; the load asked for is the design's, else the semester's |
| Planner.RenumberList | backend/agents.py:1827 | renumbering the list of sessions through its array |
| Planner.PlanSessions | backend/agents.py:1819-1831 | sessions, numbering and the three views; with bounded work no day has more items than the load plus its assessments |
| Planner.StorePlans | backend/agents.py:1833-1850 | each course's remaining work becomes the scheduled tasks, completed work stays recorded |
| Planner.FinishedStays | backend/agents.py:1837-1846 | after a run exactly the work that was completed before counts as completed, and the stored plan lists all of it |
| Planner.DiscardedHorizonRaisesLoadIff | backend/agents.py:1813-1817 | a past horizon changes neither end of the window, and raises the load if and only if it precedes the semester's end, the asked load is below 8 and the effort exceeds asked load * days |
| Planner.Plan | backend/agents.py:1768-1893 | the whole run from courses, semester and design to updated courses, rows and calendar items, with its scope, window and load determined and its calendar bound |
| Planner.DesignedAllKnown | backend/agents.py:1711-1713 | every session of a plan belongs to a candidate, so assembling drops nothing |
| Planner.PlanFitsCalendar | backend/agents.py:1768-1893 | with at most 367 * capacity sessions (732 * capacity without a finish date) of work, a day's items are at most the load plus its dated assessments |
| Limits.SparseStartMissesFinish | backend/agents.py:1463-1470 | fewer candidates than sessions a day, none returning to the first day, and work that fills the window: a session passes the finish date while the first day has room |
| Limits.SizedPlanMissesFinish | backend/agents.py:1300-1306 | a whole plan whose load was raised to fit its window exactly, and which still runs past the finish date |
| Limits.LimitCanBeExceeded | backend/agents.py:1431-1438 | a whole plan from a course with 368 sessions carried over, at one a day until today, that breaks the daily limit |
| Limits.DesignCannotExceed | backend/agents.py:1482-1612 | a design inside a D-day window that names every candidate keeps the limit only with at most (D + 366) * capacity sessions |
| Limits.DesignCanExceedLimit | backend/agents.py:1431-1438 | a whole plan from 46 documents and a design inside the window that breaks the daily limit |
| Limits.PastHorizonRaisesLoad | backend/agents.py:1812-1817 | a whole plan whose discarded horizon of yesterday doubles its load |
| Replan.EmptyDesignIsStep | backend/agents.py:1819-1826 | without a usable design the planner is the replanning step |
| Replan.GroupsCount | backend/agents.py:1173-1180 | the groups hold as many sessions of a title as the stored plan has tasks of it |
| Replan.GroupsDistinct | backend/agents.py:1173-1180 | no two groups share a folded title, and their titles are those of the stored work |
| Replan.FreshTitles | backend/agents.py:1200-1276 | work not carried over is exactly what the sources call for minus what the plan already has |
| Replan.NothingFreshIff | backend/agents.py:1200-1276 | nothing is added if and only if the plan already has every title the sources call for |
| Replan.StepStoresDrafts | backend/agents.py:1768-1893 | a run stores, per printed title, exactly the sessions its drafts ask for |
| ReplanLaws.StepKeepsTidy | backend/agents.py:1768-1893 | a run keeps nothing completed and no title ending in a session suffix |
| ReplanLaws.StepWork | backend/agents.py:1171-1276 | after a run a course's work titles are those it had plus those its sources call for |
| ReplanLaws.ReplanningKeepsWorkTitles | backend/agents.py:1171-1172 | any number of runs, under any days and windows, leaves that same set of work titles |
| ReplanLaws.ReplanningCounts | backend/agents.py:1182-1198 | each later run schedules max(sessions so far, expected effort) of every piece of work |
| ReplanLaws.ReplanningSettles | backend/agents.py:1171-1198 | from the second run on every piece of work keeps a constant number of sessions |
| ReplanLaws.NextRunAddsNothingIff | backend/agents.py:1171-1276 | the run after a first one adds no work if and only if every source title is among the titles the first run's drafts print |
| ReplanLaws.LoneDocumentSettlesIff | backend/agents.py:1231-1250 | a one-document course settles if and only if its printed title parses back to the document |
| ReplanLaws.SuffixedTitleIsAddedAgain | backend/agents.py:1171-1180 | a one-page document named like a session is taken up again by the next run |
| ReplanGrowth.LoneDocumentSessions | backend/agents.py:1171-1250 | after n runs a one-document course holds its effort in sessions if its printed title reads back as itself, and n times that if it does not |
| ReplanGrowth.SettlesIff | backend/agents.py:1231-1250 | reading back as itself is the same condition under which the second run adds nothing |
| ReplanGrowth.SuffixedTitleMultiplies | backend/agents.py:1171-1180 | a one-page document named like a session has exactly n sessions after n runs |
| Calendar.IndexTasks | backend/workflow.py:918-933 | the loops index tasks by course, title and date, and by course and title, later tasks replacing earlier |
| Calendar.CourseIds | backend/workflow.py:913-917 | a course name resolves to the id of the last course that carries it |
| Calendar.CourseIdIsLast | backend/workflow.py:913-917 | a name resolves to the last course that carries it and has an id, and to nothing when there is none |
| Calendar.CalendarEvents | backend/workflow.py:911-969 | the loop emits, for each item in order, its course, its slot by position within its day, and the id of the task it updates |
| Calendar.EventWithinDay | backend/workflow.py:946-949 | every task starts before it ends, inside 09:00 to 22:00 of its day |
| Calendar.SevenItemsFit | backend/workflow.py:934-949 | no two tasks of a day overlap if and only if the day has at most seven items |
| CalendarPlan.PlanIsOverlapFree | backend/workflow.py:934-949 | a plan with bounded work whose load plus assessments per day is at most 7 gives an overlap-free calendar |
| TaskStore.SharedState | backend/main.py:726-779 | the projection of courses and their finished and open tasks |
| TaskStore.SnapshotTitles | backend/workflow.py:918-933 | a title is indexed exactly when a task of that course and title is shown, and then with the id of one |
| TaskStore.SnapshotDates | backend/workflow.py:918-932 | a dated entry exists exactly when a shown task of that course and title starts on that day, and then with the id of one |
| TaskStore.EventIdentity | backend/workflow.py:950-953 | an event updates a task exactly when its course resolves and a shown task has its course and title; it is one of those, and one of the same day whenever there is one |
| TaskStore.EventPrefersOpen | backend/main.py:751-757 | an event never names a finished task while an open one of its work would do: one of its own day if any, else of any day when nothing of its work is on its day |
| Approval.Store.ApplyEvent | backend/main.py:452-475 | an upsert replaces or creates exactly its own task, and is refused, changing nothing, for an unknown course or an empty range |
| Approval.Store.Approve | backend/main.py:452-475 | events apply in order up to the first refused one |
| Approval.ApplyingKeepsKeys | backend/main.py:452-475 | approving keeps every task's course and title, creates only under new ids, and leaves each event visible |
| Approval.ContentsStand | backend/main.py:452-475 | with distinct work each event's task stands with that event's contents and all others are untouched |
| Approval.ApprovedItemsStored | backend/main.py:463-475 | after an approval a task of the item's course holds its title and notes, an hour of its own day by its position among that day's items, still to do and the supervisor's |
| Approval.SecondApprovalAdds | backend/workflow.py:950-953 | a second approval adds exactly as many tasks as it has events without a course id, and removes none |
| Approval.SecondApprovalAddsNothingIff | backend/workflow.py:950-953 | it adds no task if and only if every course resolves to an id |
| Approval.SecondApprovalChangesNothing | backend/main.py:452-475 | if also course and title are unique, the second approval leaves the whole table as it was |
| Approval.SnapshotEventsAccepted | backend/main.py:458-466 | every event built from a snapshot of the courses names a known course and has a proper range, so the store accepts it |
| Approval.ApprovePlan | backend/workflow.py:415-423 | approving a plan against a fresh snapshot of the store writes every one of its events, and unless a later item is the same work a stored task says what the item says: its title, notes, day and hour |
| Approval.ApproveTwice | backend/main.py:452-475 | on the store itself: the second approval adds a task if and only if some course does not resolve, and changes nothing when all resolve and work is unique |
| Workflow.Supervisor.constructor | backend/workflow.py:35-57 | a new supervisor has no paused thread and no checkpoint |
| Workflow.Supervisor.Handle | backend/workflow.py:106-198 | a turn's effect on the paused table and the checkpoints, and all it emits, in every branch |
| WorkflowLaws.TurnWrites | backend/workflow.py:301-339 | a turn writes to the calendar only when it approves a paused plan, then exactly that plan's events, and it then asks nothing |
| WorkflowLaws.RunsCollideIff | backend/workflow.py:154 | two threads share a run if and only if the longer thread id is the shorter one, a colon and some text, and the shorter thread's request id is that text, a colon and the other request id |
| WorkflowLaws.ColonFreeRequestsAreSeparate | backend/supervisor_contract.py:25 | with UUID request ids, runs of different threads never share an id, whatever the thread ids |
| WorkflowLaws.PausedThreadsWait | backend/workflow.py:106-198 | over every run of the service: a paused thread waits in its own run on the last question shown to it, not yet answered by a write |
| WorkflowLaws.WritesExactlyApprovedDrafts | backend/workflow.py:311-314 | over every run of the service: a turn writes exactly when it is an approving message on a thread that waits on a draft; it then writes that draft, whole and in order, and ends the wait |
| WorkflowLaws.RunTurns | backend/workflow.py:106-198 | a new supervisor taken through any turns ends in the state, and emits turn by turn the output, that the theorems about runs speak of |
| WorkflowLaws.NoDraftWrittenTwice | backend/workflow.py:195-198 | over every run of the service: between two writes on a thread a new question was shown there |
| RunOwnership.CheckpointIsLastAsked | backend/workflow.py:177-198 | for any run ids, a checkpoint is what the last turn executing that run asked |
| RunOwnership.PausedIsLastShown | backend/workflow.py:183-198 | for any run ids, a paused thread waits on its last question and has not executed that run since |
| RunOwnership.ApprovalWritesOwnDraftIff | backend/workflow.py:141-151 | an approval writes what the last turn executing its run asked; that is the turn that showed the thread its draft if and only if no other thread executed the run in between |
| Pauses.PausedIffOpen | backend/workflow.py:183-198 | for any run ids, a thread is paused exactly when its last shown question is still open, and waits on that one: a shown question leaves its thread waiting until a later turn of the thread answers it, drops it or executes its run |
| Pauses.TurnIsDetermined | backend/workflow.py:106-198 | over every run of the service, what a turn asks and writes follows from its message and the open question: only an understood chat message does either, and it writes exactly when it says yes to an open draft |
| Pauses.OpenUntilUnderstood | backend/workflow.py:119-151 | with request ids that never repeat, a question stays open until its student says something that is understood |
| Pauses.UnheardChangesNothing | backend/workflow.py:109-139 | an injected message, and one that needs clarifying while its thread waits, get a reply and leave paused threads and checkpoints as they were |
| Pauses.YesIsNotNo | backend/workflow.py:843-867 | no answer counts both as yes and as no |
| Quiz.FourOptionsAreFour | backend/agents.py:726-740 | there are always four options, and up to four given ones keep their places |
| Quiz.LetterOfAnswer | backend/agents.py:741-751 | however the answer is given, the correct letter is that of the option it names: by number or digits, by letter in either case, by the text of the first equal option, else the first |
| Quiz.NormalisedShape | backend/agents.py:714-764 | a normalised question has its own trimmed prompt, four options that begin with the given ones, and the letter of the option its answer names |
| Quiz.ChooseCandidate | backend/agents.py:628-652 | the first candidate with the highest score |
| Quiz.SelectQuestions | backend/agents.py:679-684 | the greedy loop terminates and equals: stable sort by score, first of each id, first count |
| Quiz.GreedyStep | backend/agents.py:681-684 | choosing the best and removing its id is one step of that specification |
| Quiz.WithoutIdRanked | backend/agents.py:684 | removing an id commutes with the stable sort |
| Quiz.SelectionIsDistinct | backend/agents.py:679-684 | min(count, distinct ids) candidates are chosen, with pairwise different ids |
| Quiz.SelectionTakesBest | backend/agents.py:652-684 | questions are chosen best first, and one passed over either scores no more than the chosen one of its own id or meets a full quiz of questions that score at least as much |
| Quiz.ScoreAdds | backend/agents.py:643-651 | what each kind of term found in a question adds to its score or takes off |
| QuizPipeline.GeneratePool | backend/agents.py:714-764 | the pool is the normalised questions of every part, in order |
| QuizPipeline.PoolAnswers | backend/agents.py:714-764 | every pooled question is what became of a raw candidate, with the letter of the option its answer names |
| QuizPipeline.GenerateQuiz | backend/agents.py:664-701 | the selected questions without answers, their key, and whether the request was met in full |
| QuizPipeline.NormalisedQuestions | backend/workflow.py:539-567 | each question is paired with its option ids and its answer from the key |
| QuizPipeline.CheckQuestion | backend/main.py:510-520 | accepted exactly when it has a prompt, four non-blank options with different ids, and its answer among them |
| QuizPipeline.StoreQuiz | backend/main.py:483-544 | a quiz is stored whole when it is not empty and every question passes, otherwise not at all |
| QuizPipeline.PairedIsStoredForm | backend/workflow.py:543-566 | with distinct ids a question keeps its own correct option and explanation through the key |
| QuizPipeline.StoredFormAcceptable | backend/main.py:512-518 | a pooled question passes the check if and only if none of its option texts is blank |
| QuizPipeline.QuizIntegrity | backend/main.py:483-544 | questions are selected exactly when there is material; every selected one is stored with its own answer, and all pass if and only if no option text is blank |
| QuizPipeline.MakeQuiz | backend/workflow.py:479-537 | from raw material to the stored quiz: without material there is none; otherwise it is stored if and only if no selected option is blank, and then as exactly the selected questions, as many as asked for or there are, each marking as correct the option its raw candidate named |
| Like.CompilePattern | frontend/backend/open_webui/internal/db.py:339-355 | the scanning loop with its escape flag builds the compiled form |
| Like.FullMatch | frontend/backend/open_webui/internal/db.py:360 | a backtracking matcher accepts exactly the strings the compiled form denotes |
| Like.CompileIsCorrect | frontend/backend/open_webui/internal/db.py:339-360 | the compiled form denotes exactly the strings LIKE matches; a dangling escape never matches |
| Like.RunIsLike | frontend/backend/open_webui/internal/db.py:339-360 | running the compiled pattern decides LIKE for every pattern, escape and value |
| Like.PlainMatchesItself | frontend/backend/open_webui/internal/db.py:344-349 | a pattern without wildcards and escapes matches itself alone |
| Like.PercentMatchesRuns | frontend/backend/open_webui/internal/db.py:344-349 | a percent sign stands for any run of characters |
| Like.CaseIsIgnored | frontend/backend/open_webui/internal/db.py:328-332 | capitals make no difference in pattern, value or escape |
| Like.Matcher.Remember | frontend/backend/open_webui/internal/db.py:351-358 | a full cache is emptied before it takes the new pattern; it never exceeds 512 entries |
| Like.Matcher.LikeCall | frontend/backend/open_webui/internal/db.py:328-360 | a cached answer equals the uncached one; null in, null out |
| Like.LikeCalls | frontend/backend/open_webui/internal/db.py:328-360 | over any sequence of calls every answer equals the uncached one |
| Chunks.ChunkSection | backend/rag_ingestion.py:284-296 | the chunks are, in order, exactly the trimmed joins of the overlapping word slices that count at least eight words |
| Chunks.CutWords | backend/rag_ingestion.py:290-296 | the stepping loop with its early stop |
| Chunks.SplitJoinSplit | backend/rag_ingestion.py:285 | normalising white space and splitting again gives the same words |
| Chunks.PieceSizes | backend/rag_ingestion.py:291-296 | all pieces but the last are full, later ones are longer than the overlap, and one piece suffices exactly for short sections |
| Chunks.PiecesRebuildSection | backend/rag_ingestion.py:291-296 | the first piece and each later one without its overlap rebuild the section's words |
| Chunks.FilterDropsNothing | backend/rag_ingestion.py:293 | for any section and an overlap of at least 7, the filter drops nothing if and only if the first piece counts eight words, a heading counting as many as it has |
| Chunks.OnlyTheLastPieceCanDrop | backend/rag_ingestion.py:293 | with pieces of at least eight entries a piece before the last is kept if and only if it is not a first piece of exactly eight with a blank heading |
| Chunks.DroppedPieceLosesLittle | backend/rag_ingestion.py:291-296 | for any overlap, dropping the last of several pieces loses fewer than 8 - overlap words; the pieces before it rebuild everything else |
| Chunks.SlicesStop | backend/rag_ingestion.py:290-296 | the slices stop with the first that reaches the end of the section |
| Chunks.ChunksHoldSection | backend/rag_ingestion.py:284-296 | unless the first slice counts fewer than eight words, the words of the chunks, later ones without their overlap, are the section's words but for at most the last 7 - overlap; with an overlap of seven or more there is a chunk per slice and nothing is missing |
| Chunks.SectionWordsCount | backend/rag_ingestion.py:285-287 | every entry of any section counts one word, except that a heading in front counts as many as it has, possibly none |
| Fusion.AddShares | backend/rag_retrieval.py:112-117 | each known id gains one share per place it holds in the ranking |
| Fusion.Similarities | backend/rag_retrieval.py:95-107 | the vector order, and the last similarity reported per id |
| Fusion.SimilarityIsLast | backend/rag_retrieval.py:104-107 | a chunk's similarity is that of the last hit with its id |
| Fusion.Retrieve | backend/rag_retrieval.py:89-135 | the result is the first top_k of the order by fused, lexical and vector score |
| Fusion.LexicalIdsDistinct | backend/rag_retrieval.py:89-93 | the lexical order lists every record once |
| Fusion.LexicalByScore | backend/rag_retrieval.py:93 | the lexical order runs by descending score, equal scores in the order of the collection |
| Fusion.FusedIsReciprocal | backend/rag_retrieval.py:112-117 | a chunk's fused score is 1 / (60 + rank) for its lexical rank plus as much for its vector rank, if it has one |
| Fusion.FinalOrderHolds | backend/rag_retrieval.py:119-126 | the final order is complete, carries each chunk's own three scores, and runs by fused score, then lexical score, then similarity |
| Fusion.FinalIdsDistinct | backend/rag_retrieval.py:119-135 | no chunk is returned twice |
| Fusion.FusionRespectsAgreement | backend/rag_retrieval.py:112-126 | a chunk ahead in the lexical order and not behind in the vector order is ahead in the result |
| Fusion.NoVectorsMeansLexical | backend/rag_retrieval.py:108-126 | without vector hits the result is the lexical order |

## Left out

- Text.Fold: case folding covers ASCII letters only, and session suffixes are read with ASCII digits; other alphabets are not modelled.
- Workflow.Supervisor.Handle: a resume that raises, concurrent requests on one thread, several interrupts from one run and an interrupt without a message are not modelled; a pause always shows one message.
- Approval.Store.ApplyEvent: a refused upsert leaves the table unchanged, as after a rollback; what an unsaved database session still holds is not modelled, nor are timestamps.
- ReplanLaws.ReplanningSettles: stated for courses with nothing completed, because a finished session drops its siblings and the document is then taken up again; replanning goes from the state the planner updates, not through the database projection, which turns exam and quiz tasks back into deadlines.
- Fusion.Retrieve: BM25 values, embeddings and floating-point rounding of the shares are not modelled; after a query that fails half-way the code keeps similarities it already has, the model has either all hits or none.
- Quiz.ChooseCandidate: the list of used ids is left out, since the caller always removes them first; the learner state enters as an arbitrary score.
- QuizPipeline.GeneratePool: raw questions arrive with the part they come from; the path on which the language model names the part in its answer is the same list with one question per source.
- Like.FullMatch: regular-expression matching is modelled by its own backtracking matcher over the compiled tokens.
- Unreadable dates: ISO text and its parsing, time zones and the largest representable date are outside; a proposal's day is readable or not, every stored day is readable.
- Mastery given as words, and the fields from which a document's title and length are read; a course arrives with both.
- Courses without any data, which the planner filters out first, and courses given in other shapes than lists of records.
- Study items, library overview, pace, revision diff, horizon report, exclusion reasons and all message texts.
- Prompting, language-model requests, prompt-injection and response filters, and the communication and routing agents beyond their verdicts.
- The task_delete, notification_create, document and progress events, and the calendar outside the study plan.
- Splitting a document into sections, reading files, the vector store and the filter on records before ranking.
- Web routes, authentication, uploads, streaming, migrations and the rest of the Open WebUI code.
