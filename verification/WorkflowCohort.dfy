/**
 Weekly cohorts of workflow runs: which saved templates were active, how their runs
 ended, and how many templates came back the week after. The last week of the
 window has no week after it, so its return figures are absent.
 */
module WorkflowCohort {
  import opened Prelude
  import Products

  datatype Session = Session(projectId: string, incognito: bool, isCron: bool, parent: Option<string>)
  datatype Goal = Goal(sessionId: string, accepted: bool)

  /** A workflow run; `day` is its local date as a day number, `template` the one its origin names. */
  datatype Run = Run(sessionId: string, template: Option<string>, day: int, status: string, goalId: Option<string>)

  /** `templates` maps a template to its project. */
  datatype Db = Db(sessions: map<string, Session>, templates: map<string, string>, goals: map<string, Goal>)

  /** A row of the query: one run in scope, and whether its goal, if it has one in the session, was accepted. */
  datatype Row = Row(template: string, day: int, status: string, goal: Option<bool>)

  function Select(db: Db, project: string, run: Run): Option<Row> {
    if run.sessionId !in db.sessions || run.template.None? || run.template.value !in db.templates then None
    else
      var s := db.sessions[run.sessionId];
      if s.projectId != project || db.templates[run.template.value] != s.projectId
         || s.incognito || s.isCron || s.parent.Some? then None
      else
        var goal := if run.goalId.Some? && run.goalId.value in db.goals && db.goals[run.goalId.value].sessionId == run.sessionId
                    then Some(db.goals[run.goalId.value].accepted) else None;
        Some(Row(run.template.value, run.day, run.status, goal))
  }

  datatype Figures = Figures(active: set<string>, completed: nat, failed: nat, blocked: nat, cancelled: nat,
                             linked: nat, accepted: nat)

  const NO_FIGURES := Figures({}, 0, 0, 0, 0, 0, 0)

  function One(b: bool): nat {
    if b then 1 else 0
  }

  function Count(f: Figures, row: Row): Figures {
    var linked := row.status == "completed" && row.goal.Some?;
    Figures(f.active + {row.template},
            f.completed + One(row.status == "completed"), f.failed + One(row.status == "failed"),
            f.blocked + One(row.status == "blocked"), f.cancelled + One(row.status == "cancelled"),
            f.linked + One(linked), f.accepted + One(linked && row.goal.value))
  }

  function WeekOf(day: int, start: int): int {
    (day - start) / 7
  }

  /** One more run, seen by the given week. */
  function Seen(db: Db, project: string, start: int, week: int, f: Figures, run: Run): Figures {
    var row := Select(db, project, run);
    if row.Some? && WeekOf(row.value.day, start) == week then Count(f, row.value) else f
  }

  function FiguresOf(db: Db, project: string, start: int, week: int, runs: seq<Run>): Figures {
    if runs == [] then NO_FIGURES
    else Seen(db, project, start, week, FiguresOf(db, project, start, week, runs[..|runs| - 1]), runs[|runs| - 1])
  }

  function Ratio(numerator: nat, denominator: nat): Option<real> {
    if denominator == 0 then None else Some(numerator as real / denominator as real)
  }

  datatype Line = Line(weekStart: int, activeTemplates: nat,
                       returnNumerator: Option<nat>, returnDenominator: Option<nat>, returnRate: Option<real>,
                       completed: nat, failed: nat, blocked: nat, cancelled: nat, goalLinked: nat, goalAccepted: nat,
                       goalLinkedCoverage: Option<real>, goalAcceptedCoverage: Option<real>)

  function LineOf(weekStart: int, f: Figures, next: Option<Figures>): Line {
    Line(weekStart, |f.active|,
         if next.Some? then Some(|f.active * next.value.active|) else None,
         if next.Some? then Some(|f.active|) else None,
         if next.Some? then Ratio(|f.active * next.value.active|, |f.active|) else None,
         f.completed, f.failed, f.blocked, f.cancelled, f.linked, f.accepted,
         Ratio(f.linked, f.completed), Ratio(f.accepted, f.completed))
  }

  function ReportLine(db: Db, project: string, start: int, weeks: nat, runs: seq<Run>, week: nat): Line {
    LineOf(start + 7 * week, FiguresOf(db, project, start, week, runs),
           if week + 1 < weeks then Some(FiguresOf(db, project, start, week + 1, runs)) else None)
  }

  function Report(db: Db, project: string, start: int, weeks: nat, runs: seq<Run>): seq<Line> {
    seq(weeks, week requires 0 <= week => ReportLine(db, project, start, weeks, runs, week))
  }

  /** Day number one is a Monday. */
  predicate IsMonday(day: int) {
    (day - 1) % 7 == 0
  }

  /** `cohorts`; a window that is not whole Monday weeks is refused. */
  method Cohorts(db: Db, project: string, start: int, weeks: int, runs: seq<Run>) returns (output: Option<seq<Line>>)
    ensures output == if IsMonday(start) && weeks >= 1 then Some(Report(db, project, start, weeks, runs)) else None
  {
    if !IsMonday(start) || weeks < 1 {
      return None;
    }
    var figures := new Figures[weeks](_ => NO_FIGURES);
    for k := 0 to |runs|
      invariant forall w :: 0 <= w < weeks ==> figures[w] == FiguresOf(db, project, start, w, runs[..k])
    {
      assert runs[..k + 1][..k] == runs[..k];
      var row := Select(db, project, runs[k]);
      if row.Some? {
        var week := WeekOf(row.value.day, start);
        if 0 <= week < weeks {
          figures[week] := Count(figures[week], row.value);
        }
      }
    }
    assert runs[..|runs|] == runs;
    var lines: seq<Line> := [];
    for week := 0 to weeks
      invariant lines == Report(db, project, start, weeks, runs)[..week]
    {
      var next := if week + 1 < weeks then Some(figures[week + 1]) else None;
      lines := lines + [LineOf(start + 7 * week, figures[week], next)];
    }
    assert lines == Report(db, project, start, weeks, runs);
    output := Some(lines);
  }

  // ------------------------------------------------- what the figures mean

  /** The scope: a run of a saved template of the project, in a session of the project that is neither private, scheduled nor a child. */
  predicate InScope(db: Db, project: string, run: Run) {
    && run.sessionId in db.sessions
    && db.sessions[run.sessionId] == Session(project, false, false, None)
    && run.template.Some? && run.template.value in db.templates && db.templates[run.template.value] == project
  }

  predicate InWeek(db: Db, project: string, start: int, week: int, run: Run) {
    InScope(db, project, run) && start + 7 * week <= run.day < start + 7 * (week + 1)
  }

  /** The query selects exactly the runs in scope, with the goal of their own session if they have one. */
  lemma SelectMeans(db: Db, project: string, run: Run)
    ensures var row := Select(db, project, run);
            && (row.Some? <==> InScope(db, project, run))
            && (row.Some? ==>
                  && row.value.template == run.template.value && row.value.day == run.day && row.value.status == run.status
                  && (row.value.goal.Some? <==> HasGoal(db, run))
                  && (row.value.goal.Some? ==> row.value.goal.value == db.goals[run.goalId.value].accepted))
  {
  }

  /** The runs of a week that ended in `status`. */
  function EndedAs(db: Db, project: string, start: int, week: int, status: string): Run -> bool {
    run => InWeek(db, project, start, week, run) && run.status == status
  }

  predicate HasGoal(db: Db, run: Run) {
    run.goalId.Some? && run.goalId.value in db.goals && db.goals[run.goalId.value].sessionId == run.sessionId
  }

  /** The completed runs of a week that have a goal in their own session; with `accepted`, only those whose goal was accepted. */
  function WithGoal(db: Db, project: string, start: int, week: int, accepted: bool): Run -> bool {
    run => InWeek(db, project, start, week, run) && run.status == "completed" && HasGoal(db, run)
           && (accepted ==> db.goals[run.goalId.value].accepted)
  }

  /** How many of the runs satisfy `p`. */
  function Tally(runs: seq<Run>, p: Run -> bool): nat {
    |set i: nat | i < |runs| && p(runs[i])|
  }

  lemma TallyOneMore(runs: seq<Run>, p: Run -> bool)
    requires runs != []
    ensures Tally(runs, p) == Tally(runs[..|runs| - 1], p) + One(p(runs[|runs| - 1]))
  {
    var init, n := runs[..|runs| - 1], |runs| - 1;
    var before := set i: nat | i < |init| && p(init[i]);
    var all := set i: nat | i < |runs| && p(runs[i]);
    assert all == before + if p(runs[n]) then {n} else {};
    assert n !in before;
  }

  function TemplatesOf(db: Db, project: string, start: int, week: int, runs: seq<Run>): set<string> {
    set r | r in runs && InWeek(db, project, start, week, r) && r.template.Some? :: r.template.value
  }

  lemma TemplatesOneMore(db: Db, project: string, start: int, week: int, runs: seq<Run>)
    requires runs != []
    ensures var last := runs[|runs| - 1];
            TemplatesOf(db, project, start, week, runs)
            == TemplatesOf(db, project, start, week, runs[..|runs| - 1])
               + if InWeek(db, project, start, week, last) then {last.template.value} else {}
  {
    var init, last := runs[..|runs| - 1], runs[|runs| - 1];
    forall r
      ensures r in runs <==> r in init || r == last
    {
      assert runs == init + [last];
    }
  }

  lemma SeenInWeek(db: Db, project: string, start: int, week: int, f: Figures, run: Run)
    ensures var g := Seen(db, project, start, week, f, run);
            g.active == f.active + if InWeek(db, project, start, week, run) then {run.template.value} else {}
  {
  }

  lemma {:induction false} TemplatesMean(db: Db, project: string, start: int, week: int, runs: seq<Run>)
    ensures FiguresOf(db, project, start, week, runs).active == TemplatesOf(db, project, start, week, runs)
  {
    if runs != [] {
      var init, last := runs[..|runs| - 1], runs[|runs| - 1];
      TemplatesMean(db, project, start, week, init);
      TemplatesOneMore(db, project, start, week, runs);
      SeenInWeek(db, project, start, week, FiguresOf(db, project, start, week, init), last);
    }
  }

  /** The figure kept for an end state. */
  function FigureOf(f: Figures, status: string): nat {
    match status
    case "completed" => f.completed
    case "failed" => f.failed
    case "blocked" => f.blocked
    case "cancelled" => f.cancelled
    case _ => 0
  }

  lemma {:induction false} StateMeans(db: Db, project: string, start: int, week: int, runs: seq<Run>, status: string)
    requires status in {"completed", "failed", "blocked", "cancelled"}
    ensures FigureOf(FiguresOf(db, project, start, week, runs), status)
         == Tally(runs, EndedAs(db, project, start, week, status))
  {
    if runs != [] {
      StateMeans(db, project, start, week, runs[..|runs| - 1], status);
      TallyOneMore(runs, EndedAs(db, project, start, week, status));
    }
  }

  lemma {:induction false} GoalsMean(db: Db, project: string, start: int, week: int, runs: seq<Run>)
    ensures var f := FiguresOf(db, project, start, week, runs);
            && f.linked == Tally(runs, WithGoal(db, project, start, week, false))
            && f.accepted == Tally(runs, WithGoal(db, project, start, week, true))
  {
    if runs != [] {
      GoalsMean(db, project, start, week, runs[..|runs| - 1]);
      TallyOneMore(runs, WithGoal(db, project, start, week, false));
      TallyOneMore(runs, WithGoal(db, project, start, week, true));
    }
  }

  /**
   What a line says, read off the runs directly: the templates with a run in scope
   between the week's Monday and the next, how many such runs ended in each state,
   completed with a goal of their own session and had it accepted, and how many
   templates came back the week after.
   */
  lemma LineMeans(db: Db, project: string, start: int, weeks: nat, runs: seq<Run>, week: nat)
    requires week < weeks
    ensures var line := Report(db, project, start, weeks, runs)[week];
            var here := TemplatesOf(db, project, start, week, runs);
            var next := TemplatesOf(db, project, start, week + 1, runs);
            && line.activeTemplates == |here|
            && line.completed == Tally(runs, EndedAs(db, project, start, week, "completed"))
            && line.failed == Tally(runs, EndedAs(db, project, start, week, "failed"))
            && line.blocked == Tally(runs, EndedAs(db, project, start, week, "blocked"))
            && line.cancelled == Tally(runs, EndedAs(db, project, start, week, "cancelled"))
            && line.goalLinked == Tally(runs, WithGoal(db, project, start, week, false))
            && line.goalAccepted == Tally(runs, WithGoal(db, project, start, week, true))
            && line.weekStart == start + 7 * week
            && line.returnNumerator == (if week + 1 < weeks then Some(|here * next|) else None)
            && line.returnDenominator == (if week + 1 < weeks then Some(|here|) else None)
  {
    TemplatesMean(db, project, start, week, runs);
    TemplatesMean(db, project, start, week + 1, runs);
    StateMeans(db, project, start, week, runs, "completed");
    StateMeans(db, project, start, week, runs, "failed");
    StateMeans(db, project, start, week, runs, "blocked");
    StateMeans(db, project, start, week, runs, "cancelled");
    GoalsMean(db, project, start, week, runs);
  }

  // ---------------------------------------------------------- main results

  /**
   Lengthening the window by a week leaves every earlier line alone, except that
   the line that was last gains its return figures and changes in nothing else.
   */
  lemma LengtheningOnlyUncensors(db: Db, project: string, start: int, weeks: nat, runs: seq<Run>, week: nat)
    requires week < weeks
    ensures var short := Report(db, project, start, weeks, runs)[week];
            var long := Report(db, project, start, weeks + 1, runs)[week];
            && (week < weeks - 1 ==> long == short)
            && (week == weeks - 1 ==>
                  && short.returnNumerator.None? && short.returnDenominator.None? && short.returnRate.None?
                  && long.returnDenominator == Some(short.activeTemplates) && long.returnNumerator.Some?
                  && long == short.(returnNumerator := long.returnNumerator,
                                    returnDenominator := long.returnDenominator, returnRate := long.returnRate))
  {
  }

  lemma CountCommutes(f: Figures, a: Row, b: Row)
    ensures Count(Count(f, a), b) == Count(Count(f, b), a)
  {
    assert f.active + {a.template} + {b.template} == f.active + {b.template} + {a.template};
  }

  lemma SeenCommutes(db: Db, project: string, start: int, week: int, f: Figures, a: Run, b: Run)
    ensures Seen(db, project, start, week, Seen(db, project, start, week, f, a), b)
         == Seen(db, project, start, week, Seen(db, project, start, week, f, b), a)
  {
    if Select(db, project, a).Some? && Select(db, project, b).Some? {
      CountCommutes(f, Select(db, project, a).value, Select(db, project, b).value);
    }
  }

  /** A run may as well have come last. */
  lemma {:induction false} MoveToEnd(db: Db, project: string, start: int, week: int, before: seq<Run>, run: Run, after: seq<Run>)
    ensures FiguresOf(db, project, start, week, before + [run] + after)
         == Seen(db, project, start, week, FiguresOf(db, project, start, week, before + after), run)
    decreases |after|
  {
    var all := before + [run] + after;
    if after == [] {
      assert all[..|all| - 1] == before + after;
    } else {
      var last := after[|after| - 1];
      var init := after[..|after| - 1];
      assert all[..|all| - 1] == before + [run] + init;
      assert (before + after)[..|before + after| - 1] == before + init;
      MoveToEnd(db, project, start, week, before, run, init);
      SeenCommutes(db, project, start, week, FiguresOf(db, project, start, week, before + init), run, last);
    }
  }

  lemma {:induction false} FiguresIgnoreOrder(db: Db, project: string, start: int, week: int, runs: seq<Run>, runs': seq<Run>)
    requires multiset(runs) == multiset(runs')
    ensures FiguresOf(db, project, start, week, runs) == FiguresOf(db, project, start, week, runs')
    decreases |runs|
  {
    if runs == [] {
      assert |multiset(runs')| == |runs'| && |multiset(runs)| == 0;
    } else {
      var last := runs[|runs| - 1];
      var init := runs[..|runs| - 1];
      var before, after := TakeOut(runs, runs');
      FiguresIgnoreOrder(db, project, start, week, init, before + after);
      MoveToEnd(db, project, start, week, before, last, after);
    }
  }

  /** Where the last of `runs` stands in a rearrangement of them. */
  lemma TakeOut(runs: seq<Run>, runs': seq<Run>) returns (before: seq<Run>, after: seq<Run>)
    requires runs != [] && multiset(runs) == multiset(runs')
    ensures runs' == before + [runs[|runs| - 1]] + after
    ensures multiset(runs[..|runs| - 1]) == multiset(before + after)
  {
    var last := runs[|runs| - 1];
    var init := runs[..|runs| - 1];
    assert runs == init + [last];
    assert last in multiset(runs');
    var i: nat :| i < |runs'| && runs'[i] == last;
    before, after := runs'[..i], runs'[i + 1..];
    assert runs' == before + [last] + after;
    assert multiset(runs') == multiset(before + after) + multiset{last};
    assert multiset(runs) == multiset(init) + multiset{last};
    WithoutOne(multiset(before + after), multiset(init), last);
  }

  lemma WithoutOne(a: multiset<Run>, b: multiset<Run>, run: Run)
    requires a + multiset{run} == b + multiset{run}
    ensures a == b
  {
    assert a == (a + multiset{run}) - multiset{run};
    assert b == (b + multiset{run}) - multiset{run};
  }

  /** The report does not depend on the order in which the database returns its rows. */
  lemma ReportIgnoresOrder(db: Db, project: string, start: int, weeks: nat, runs: seq<Run>, runs': seq<Run>)
    requires multiset(runs) == multiset(runs')
    ensures Report(db, project, start, weeks, runs) == Report(db, project, start, weeks, runs')
  {
    forall week: nat
      ensures FiguresOf(db, project, start, week, runs) == FiguresOf(db, project, start, week, runs')
    {
      FiguresIgnoreOrder(db, project, start, week, runs, runs');
    }
  }

  /**
   A run that is out of scope (private, scheduled or child session, foreign project
   or template) or outside the window changes nothing, wherever it is inserted.
   */
  lemma ReportIgnoresStrangers(db: Db, project: string, start: int, weeks: nat, before: seq<Run>, stranger: Run, after: seq<Run>)
    requires Select(db, project, stranger).Some? ==> !(0 <= WeekOf(stranger.day, start) < weeks)
    ensures Report(db, project, start, weeks, before + [stranger] + after) == Report(db, project, start, weeks, before + after)
  {
    forall week: nat | week < weeks
      ensures FiguresOf(db, project, start, week, before + [stranger] + after)
           == FiguresOf(db, project, start, week, before + after)
    {
      MoveToEnd(db, project, start, week, before, stranger, after);
    }
    forall week: nat | week < weeks
      ensures ReportLine(db, project, start, weeks, before + [stranger] + after, week)
           == ReportLine(db, project, start, weeks, before + after, week)
    {
    }
  }

  lemma {:induction false} GoalsWithinCompleted(db: Db, project: string, start: int, week: int, runs: seq<Run>)
    ensures var f := FiguresOf(db, project, start, week, runs);
            f.accepted <= f.linked <= f.completed && (f.completed > 0 ==> f.active != {})
  {
    if runs != [] {
      GoalsWithinCompleted(db, project, start, week, runs[..|runs| - 1]);
    }
  }

  lemma SubsetIsNoLarger(small: set<string>, large: set<string>)
    requires small <= large
    ensures |small| <= |large|
  {
    assert large == small + (large - small);
  }

  /** Every rate is between nothing and one, and a rate is absent exactly when its denominator is zero or censored. */
  lemma RatesAreRates(db: Db, project: string, start: int, weeks: nat, runs: seq<Run>, week: nat)
    requires week < weeks
    ensures var line := Report(db, project, start, weeks, runs)[week];
            && line.goalAccepted <= line.goalLinked <= line.completed
            && (line.goalLinkedCoverage.Some? <==> line.completed > 0)
            && (line.goalLinkedCoverage.Some? ==> 0.0 <= line.goalAcceptedCoverage.value <= line.goalLinkedCoverage.value <= 1.0)
            && (line.returnNumerator.Some? <==> week + 1 < weeks)
            && (line.returnNumerator.Some? ==>
                  line.returnDenominator.Some? && line.returnNumerator.value <= line.returnDenominator.value)
            && (line.returnRate.Some? <==> week + 1 < weeks && line.activeTemplates > 0)
            && (line.returnRate.Some? ==> 0.0 <= line.returnRate.value <= 1.0)
  {
    GoalsWithinCompleted(db, project, start, week, runs);
    var f := FiguresOf(db, project, start, week, runs);
    var next := FiguresOf(db, project, start, week + 1, runs);
    SubsetIsNoLarger(f.active * next.active, f.active);
    if f.completed > 0 {
      RatioBounds(f.accepted, f.linked, f.completed);
    }
    if |f.active| > 0 {
      RatioBounds(0, |f.active * next.active|, |f.active|);
    }
  }

  /** A rate is its numerator over its denominator. */
  lemma RatesMean(db: Db, project: string, start: int, weeks: nat, runs: seq<Run>, week: nat)
    requires week < weeks
    ensures var line := Report(db, project, start, weeks, runs)[week];
            && (line.goalLinkedCoverage.Some? ==> line.goalLinkedCoverage.value * line.completed as real == line.goalLinked as real)
            && (line.goalAcceptedCoverage.Some? ==> line.goalAcceptedCoverage.value * line.completed as real == line.goalAccepted as real)
            && (line.goalAcceptedCoverage.Some? <==> line.completed > 0)
            && (line.returnRate.Some? && line.returnNumerator.Some? ==>
                  line.returnRate.value * line.activeTemplates as real == line.returnNumerator.value as real)
  {
    var line := Report(db, project, start, weeks, runs)[week];
    RatioMeans(line.goalLinked, line.completed);
    RatioMeans(line.goalAccepted, line.completed);
    if line.returnNumerator.Some? {
      RatioMeans(line.returnNumerator.value, line.activeTemplates);
    }
  }

  lemma RatioMeans(a: nat, d: nat)
    ensures Ratio(a, d).Some? <==> d > 0
    ensures d > 0 ==> Ratio(a, d).value * d as real == a as real
  {
  }

  /** Day number one is a Monday, and so is every seventh day from a Monday, and no day in between. */
  lemma MondaysComeWeekly(day: int, k: nat)
    ensures IsMonday(1) && (IsMonday(day) <==> IsMonday(day + 7))
    ensures IsMonday(day) && 0 < k < 7 ==> !IsMonday(day + k)
  {
  }

  lemma RatioBounds(a: nat, b: nat, d: nat)
    requires a <= b <= d && d > 0
    ensures 0.0 <= a as real / d as real <= b as real / d as real <= 1.0
  {
    var p, q, e := a as real / d as real, b as real / d as real, d as real;
    assert p * e == a as real && q * e == b as real;
    assert 0.0 * e == 0.0 && 1.0 * e == e;
    Products.QuotientBetween(b as real, e, p, 1.0);
    Products.QuotientBetween(a as real, e, 0.0, 1.0);
  }
}
