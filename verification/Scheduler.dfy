/** The scheduler's tick (`automation/scheduler.py`): due schedules are dispatched, and
    each one's cursor `next_run_at` is moved on whether or not its job worked. */
module Scheduler {
  import opened Cron
  import opened Options

  type Id = string

  datatype RunStatus = Completed | Failed

  /** How a dispatch ends: it raises before a run exists, or its runner fails or works. */
  datatype JobOutcome = DispatchRaises | RunnerFails | RunnerWorks

  datatype Schedule = Schedule(spec: Spec, enabled: bool, nextRunAt: Option<nat>,
                               lastRunAt: Option<nat>, lastStatus: Option<RunStatus>)

  datatype JobRun = JobRun(schedule: Id, startedAt: nat, status: RunStatus)

  /** `list_due`: enabled, with the cursor at or before `now`. */
  predicate Due(s: Schedule, now: nat) {
    s.enabled && s.nextRunAt.Some? && InstantOf(s.nextRunAt.value) <= now
  }

  function StatusOf(o: JobOutcome): RunStatus {
    if o.RunnerWorks? then Completed else Failed
  }

  /** The minute the search finds from `now`, if it finds one. */
  ghost function NextOf(spec: Spec, now: nat): (t: Option<nat>)
    ensures t.Some? ==> Parse(spec).Usable? && Answers(Parse(spec).fields, now, Next(t.value))
  {
    if Parse(spec).Usable? && exists t: nat :: Answers(Parse(spec).fields, now, Next(t))
    then var t: nat :| Answers(Parse(spec).fields, now, Next(t)); Some(t)
    else None
  }

  lemma NextOfIsTheAnswer(spec: Spec, now: nat, r: RunResult)
    requires Parse(spec).Unusable? ==> r == InvalidSpec
    requires Parse(spec).Usable? ==> Answers(Parse(spec).fields, now, r)
    ensures NextOf(spec, now) == if r.Next? then Some(r.minute) else None
  {
    var n := NextOf(spec, now);
    if n.Some? { AnswerIsDetermined(Parse(spec).fields, now, Next(n.value), r); }
  }

  /** A due schedule after its turn in a tick. */
  ghost function Served(s: Schedule, now: nat, o: JobOutcome): Schedule {
    s.(lastStatus := Some(StatusOf(o)),
       lastRunAt := if o.DispatchRaises? then s.lastRunAt else Some(now),
       nextRunAt := if NextOf(s.spec, now).Some? then NextOf(s.spec, now) else s.nextRunAt)
  }

  ghost function Ticked(s: Schedule, now: nat, o: JobOutcome): Schedule {
    if Due(s, now) then Served(s, now, o) else s
  }

  function DueIds(schedules: map<Id, Schedule>, now: nat): set<Id> {
    set id | id in schedules && Due(schedules[id], now)
  }

  /** `runs` holds one run for each of `ids` whose dispatch did not raise, and no other. */
  ghost predicate RunsFor(runs: seq<JobRun>, ids: set<Id>, now: nat, jobs: Id -> JobOutcome) {
    && (forall i, j :: 0 <= i < j < |runs| ==> runs[i].schedule != runs[j].schedule)
    && forall run :: run in runs <==>
         run.schedule in ids && !jobs(run.schedule).DispatchRaises? &&
         run == JobRun(run.schedule, now, StatusOf(jobs(run.schedule)))
  }

  lemma NoRunsYet(ids: set<Id>, now: nat, jobs: Id -> JobOutcome)
    requires ids == {}
    ensures RunsFor([], ids, now, jobs)
  {
  }

  lemma RunsForOneMore(runs: seq<JobRun>, ids: set<Id>, now: nat, jobs: Id -> JobOutcome, id: Id)
    requires RunsFor(runs, ids, now, jobs) && id !in ids
    ensures RunsFor(runs + if jobs(id).DispatchRaises? then [] else [JobRun(id, now, StatusOf(jobs(id)))],
                    ids + {id}, now, jobs)
  {
  }

  class Scheduler {
    var schedules: map<Id, Schedule>
    var runs: seq<JobRun>

    /** `tick`. The due rows come in no particular order. Every due schedule is served
        exactly once, whatever the other jobs do; the rest stay as they were. */
    method Tick(now: nat, jobs: Id -> JobOutcome) returns (enqueued: seq<JobRun>, rescheduled: seq<Id>)
      requires now < (LAST_MINUTE + 1) * MICROS_PER_MINUTE
      modifies this
      ensures schedules.Keys == old(schedules.Keys)
      ensures forall id :: id in schedules ==> schedules[id] == Ticked(old(schedules[id]), now, jobs(id))
      ensures runs == old(runs) + enqueued
      ensures RunsFor(enqueued, DueIds(old(schedules), now), now, jobs)
      ensures forall id :: id in rescheduled <==>
                id in schedules && Due(old(schedules)[id], now) && NextOf(old(schedules)[id].spec, now).Some?
    {
      hide NextOf, Served, StatusOf, RunsFor;
      enqueued, rescheduled := [], [];
      var due := DueIds(schedules, now);
      var todo := due;
      assert RunsFor([], due - todo, now, jobs) by { NoRunsYet(due - todo, now, jobs); }
      while todo != {}
        invariant todo <= due
        invariant schedules.Keys == old(schedules.Keys)
        invariant forall id :: id in schedules ==>
                    schedules[id] ==
                    if id in due - todo then Served(old(schedules)[id], now, jobs(id)) else old(schedules)[id]
        invariant runs == old(runs) + enqueued
        invariant RunsFor(enqueued, due - todo, now, jobs)
        invariant forall id :: id in rescheduled <==> id in due - todo && NextOf(old(schedules)[id].spec, now).Some?
      {
        var id :| id in todo;
        var run, again := Serve(id, now, jobs(id));
        RunsForOneMore(enqueued, due - todo, now, jobs, id);
        assert due - todo + {id} == due - (todo - {id});
        enqueued := enqueued + if run.Some? then [run.value] else [];
        if again { rescheduled := rescheduled + [id]; }
        todo := todo - {id};
      }
      assert due - todo == due;
    }

    /** One due schedule: dispatch, then always try to move the cursor. */
    method Serve(id: Id, now: nat, outcome: JobOutcome) returns (run: Option<JobRun>, again: bool)
      requires now < (LAST_MINUTE + 1) * MICROS_PER_MINUTE
      requires id in schedules
      modifies this
      ensures schedules == old(schedules)[id := Served(old(schedules[id]), now, outcome)]
      ensures run == if outcome.DispatchRaises? then None else Some(JobRun(id, now, StatusOf(outcome)))
      ensures runs == old(runs) + if run.Some? then [run.value] else []
      ensures again <==> NextOf(old(schedules[id]).spec, now).Some?
    {
      hide NextOf;
      var s := schedules[id];
      if outcome.DispatchRaises? {
        run := None;
        s := s.(lastStatus := Some(Failed));
      } else {
        run := Some(JobRun(id, now, StatusOf(outcome)));
        runs := runs + [run.value];
        s := s.(lastRunAt := Some(now), lastStatus := Some(run.value.status));
      }
      schedules := schedules[id := s];
      again := PrimeNextRun(id, now);
    }

    /** `prime_next_run`: the cursor goes to the next match, or stays where the search raises. */
    method PrimeNextRun(id: Id, now: nat) returns (ok: bool)
      requires now < (LAST_MINUTE + 1) * MICROS_PER_MINUTE
      requires id in schedules
      modifies `schedules
      ensures ok <==> NextOf(old(schedules[id]).spec, now).Some?
      ensures ok ==>
                schedules ==
                old(schedules)[id := old(schedules[id]).(nextRunAt := NextOf(old(schedules[id]).spec, now))]
      ensures ok ==> Primed(schedules[id]) && now < InstantOf(schedules[id].nextRunAt.value)
      ensures !ok ==> schedules == old(schedules)
    {
      var s := schedules[id];
      var next := NextRun(s.spec, true, now);
      NextOfIsTheAnswer(s.spec, now, next);
      ok := next.Next?;
      if ok {
        AnswerIsNext(Parse(s.spec).fields, now, next.minute);
        schedules := schedules[id := s.(nextRunAt := Some(next.minute))];
      }
    }
  }

  // ---- Whole runs of one schedule -----------------------------------------------------

  datatype TickEvent = TickEvent(now: nat, outcome: JobOutcome)

  /** One schedule after a run of ticks. */
  ghost function AfterTicks(s: Schedule, ticks: seq<TickEvent>): Schedule {
    if ticks == [] then s
    else
      var t := ticks[|ticks| - 1];
      Ticked(AfterTicks(s, ticks[..|ticks| - 1]), t.now, t.outcome)
  }

  /** The cursor minutes at which it was dispatched, in order. */
  ghost function Fired(s: Schedule, ticks: seq<TickEvent>): seq<nat> {
    if ticks == [] then []
    else
      var init := ticks[..|ticks| - 1];
      var before := AfterTicks(s, init);
      Fired(s, init) + if Due(before, ticks[|ticks| - 1].now) then [before.nextRunAt.value] else []
  }

  ghost predicate TimeMovesOn(ticks: seq<TickEvent>) {
    forall i, j :: 0 <= i < j < |ticks| ==> ticks[i].now <= ticks[j].now
  }

  /** If the schedule is due at tick `i`, the search finds an answer there. */
  ghost predicate AnsweredAt(s: Schedule, ticks: seq<TickEvent>, i: nat)
    requires i < |ticks|
  {
    Due(AfterTicks(s, ticks[..i]), ticks[i].now) ==> NextOf(s.spec, ticks[i].now).Some?
  }

  ghost predicate Answered(s: Schedule, ticks: seq<TickEvent>) {
    forall i :: 0 <= i < |ticks| ==> AnsweredAt(s, ticks, i)
  }

  /** A primed cursor: it stands on a minute that matches. */
  ghost predicate Primed(s: Schedule) {
    s.nextRunAt.Some? && Parse(s.spec).Usable? && Matches(Parse(s.spec).fields, s.nextRunAt.value)
  }

  /** What a turn records: success only if the runner worked, the time unless the dispatch
      raised, and nothing about the schedule itself. */
  lemma ServedMeans(s: Schedule, now: nat, o: JobOutcome)
    ensures var r := Served(s, now, o);
            && r.lastStatus.Some? && (r.lastStatus.value == Completed <==> o.RunnerWorks?)
            && (r.lastStatus.value == Failed <==> o.RunnerFails? || o.DispatchRaises?)
            && r.lastRunAt == (if o.DispatchRaises? then s.lastRunAt else Some(now))
            && r.spec == s.spec && r.enabled == s.enabled
  {
  }

  /** The first dispatch is for the first cursor, at the first tick that has reached it; there is
      none if no tick has, or if the schedule is disabled or has no cursor. */
  lemma {:induction false} FirstDispatch(s: Schedule, ticks: seq<TickEvent>)
    ensures Fired(s, ticks) != [] <==>
            s.enabled && s.nextRunAt.Some? &&
            exists i :: 0 <= i < |ticks| && s.nextRunAt.value * MICROS_PER_MINUTE <= ticks[i].now
    ensures Fired(s, ticks) != [] ==> Fired(s, ticks)[0] == s.nextRunAt.value
    ensures Fired(s, ticks) == [] ==> AfterTicks(s, ticks) == s
  {
    if ticks != [] {
      var init, last := ticks[..|ticks| - 1], ticks[|ticks| - 1];
      FirstDispatch(s, init);
      SpecStays(s, init);
      hide Served;
      assert ticks == init + [last];
      assert forall i :: 0 <= i < |init| ==> ticks[i] == init[i];
      assert ticks[|init|] == last;
    }
  }

  /** Serving a due schedule moves the cursor to a later match, past `now`. */
  lemma ServedMovesOn(s: Schedule, now: nat, o: JobOutcome)
    requires Due(s, now) && NextOf(s.spec, now).Some?
    ensures var r := Served(s, now, o);
            Primed(r) && s.nextRunAt.value < r.nextRunAt.value && now < InstantOf(r.nextRunAt.value)
  {
    var t := NextOf(s.spec, now).value;
    assert FirstCandidate(now) <= t;
  }

  ghost predicate Rising(ms: seq<nat>) {
    forall i, j :: 0 <= i < j < |ms| ==> ms[i] < ms[j]
  }

  /** Where a schedule that started as `s` stands after dispatches at `fired`: its cursor on
      a match, the dispatches at rising matches from the first cursor up to below it. */
  ghost predicate OnTrack(s: Schedule, r: Schedule, fired: seq<nat>)
    requires Primed(s)
  {
    && r.spec == s.spec && r.enabled == s.enabled
    && Primed(r) && s.nextRunAt.value <= r.nextRunAt.value
    && Rising(fired)
    && forall i :: 0 <= i < |fired| ==>
         s.nextRunAt.value <= fired[i] < r.nextRunAt.value && Matches(Parse(s.spec).fields, fired[i])
  }

  lemma OnTrackStep(s: Schedule, r: Schedule, fired: seq<nat>, now: nat, o: JobOutcome)
    requires Primed(s) && OnTrack(s, r, fired)
    requires Due(r, now) && NextOf(s.spec, now).Some?
    ensures OnTrack(s, Served(r, now, o), fired + [r.nextRunAt.value])
  {
    ServedMovesOn(r, now, o);
    hide Matches, InstantOf, NextOf;
    var next := fired + [r.nextRunAt.value];
    assert Rising(next);
  }

  lemma AnsweredPrefix(s: Schedule, ticks: seq<TickEvent>, k: nat)
    requires k <= |ticks| && Answered(s, ticks)
    ensures Answered(s, ticks[..k])
  {
    forall i: nat | i < k ensures AnsweredAt(s, ticks[..k], i) {
      assert ticks[..k][..i] == ticks[..i];
      assert AnsweredAt(s, ticks, i);
    }
  }

  /** Over any run of ticks answered whenever the schedule is due, the cursor stands on a match and
      only moves forward, and the dispatches were at distinct, rising matches, none later
      than the last tick. */
  lemma {:induction false} CursorOnlyAdvances(s: Schedule, ticks: seq<TickEvent>)
    requires Primed(s) && TimeMovesOn(ticks) && Answered(s, ticks)
    ensures OnTrack(s, AfterTicks(s, ticks), Fired(s, ticks))
    ensures forall i :: 0 <= i < |Fired(s, ticks)| ==> InstantOf(Fired(s, ticks)[i]) <= ticks[|ticks| - 1].now
  {
    if ticks != [] {
      var init, last := ticks[..|ticks| - 1], ticks[|ticks| - 1];
      AnsweredPrefix(s, ticks, |init|);
      CursorOnlyAdvances(s, init);
      assert AnsweredAt(s, ticks, |init|);
      var before := AfterTicks(s, init);
      if Due(before, last.now) { OnTrackStep(s, before, Fired(s, init), last.now, last.outcome); }
      hide OnTrack, Served, NextOf, InstantOf;
      assert init != [] ==> init[|init| - 1].now <= last.now;
    }
  }

  lemma {:induction false} RisingFits(ms: seq<nat>, bag: set<nat>)
    requires Rising(ms) && forall t :: t in ms ==> t in bag
    ensures |ms| <= |bag|
  {
    if ms != [] {
      var last := ms[|ms| - 1];
      RisingFits(ms[..|ms| - 1], bag - {last});
    }
  }

  /** The matches of a spec between two minutes. */
  ghost function MatchesBetween(f: Fields, lo: nat, hi: nat): set<nat> {
    set t: nat | lo <= t <= hi && Matches(f, t)
  }

  /** Every tick but the last was answered. */
  ghost predicate AnsweredSoFar(s: Schedule, ticks: seq<TickEvent>)
    requires ticks != []
  {
    Answered(s, ticks[..|ticks| - 1])
  }

  /** Dispatches never outnumber the matching minutes that have passed. */
  lemma NeverMoreThanMatches(s: Schedule, ticks: seq<TickEvent>)
    requires ticks != [] && Primed(s) && TimeMovesOn(ticks) && AnsweredSoFar(s, ticks)
    ensures |Fired(s, ticks)| <=
            |MatchesBetween(Parse(s.spec).fields, s.nextRunAt.value, ticks[|ticks| - 1].now / MICROS_PER_MINUTE)|
  {
    FiresAtRisingMatches(s, ticks);
    var fired, now := Fired(s, ticks), ticks[|ticks| - 1].now;
    var bag := MatchesBetween(Parse(s.spec).fields, s.nextRunAt.value, now / MICROS_PER_MINUTE);
    hide Fired, AnsweredSoFar, TimeMovesOn, Matches;
    assert forall t :: t in fired ==> t in bag;
    RisingFits(fired, bag);
  }

  ghost predicate MatchesFrom(s: Schedule, ms: seq<nat>, now: nat)
    requires Primed(s)
  {
    forall i :: 0 <= i < |ms| ==>
      s.nextRunAt.value <= ms[i] && Matches(Parse(s.spec).fields, ms[i]) && InstantOf(ms[i]) <= now
  }

  lemma FiresAtRisingMatches(s: Schedule, ticks: seq<TickEvent>)
    requires ticks != [] && Primed(s) && TimeMovesOn(ticks) && AnsweredSoFar(s, ticks)
    ensures Rising(Fired(s, ticks)) && MatchesFrom(s, Fired(s, ticks), ticks[|ticks| - 1].now)
  {
    var init, last := ticks[..|ticks| - 1], ticks[|ticks| - 1];
    CursorOnlyAdvances(s, init);
    assert init != [] ==> init[|init| - 1].now <= last.now;
    OneMoreRises(s, AfterTicks(s, init), Fired(s, init), last.now);
  }

  lemma OneMoreRises(s: Schedule, r: Schedule, fired: seq<nat>, now: nat)
    requires Primed(s) && OnTrack(s, r, fired)
    requires forall i :: 0 <= i < |fired| ==> InstantOf(fired[i]) <= now
    ensures Rising(fired) && MatchesFrom(s, fired, now)
    ensures Due(r, now) ==>
              Rising(fired + [r.nextRunAt.value]) && MatchesFrom(s, fired + [r.nextRunAt.value], now)
    ensures fired + [] == fired
  {
    hide Matches, InstantOf;
  }

  lemma {:induction false} FiredPrefix(s: Schedule, ticks: seq<TickEvent>, k: nat)
    requires k <= |ticks|
    ensures Fired(s, ticks[..k]) <= Fired(s, ticks)
    decreases |ticks|
  {
    if k == |ticks| {
      assert ticks[..k] == ticks;
    } else {
      var init := ticks[..|ticks| - 1];
      FiredPrefix(s, init, k);
      assert init[..k] == ticks[..k];
    }
  }

  lemma {:induction false} SpecStays(s: Schedule, ticks: seq<TickEvent>)
    ensures AfterTicks(s, ticks).spec == s.spec && AfterTicks(s, ticks).enabled == s.enabled
  {
    if ticks != [] { SpecStays(s, ticks[..|ticks| - 1]); }
  }

  lemma FiredOneMore(s: Schedule, ticks: seq<TickEvent>, i: nat)
    requires i < |ticks|
    ensures var before := AfterTicks(s, ticks[..i]);
            && AfterTicks(s, ticks[..i + 1]) == Ticked(before, ticks[i].now, ticks[i].outcome)
            && Fired(s, ticks[..i + 1]) ==
               Fired(s, ticks[..i]) + if Due(before, ticks[i].now) then [before.nextRunAt.value] else []
  {
    assert ticks[..i + 1][..i] == ticks[..i];
  }

  /** A due tick without an answer is followed by a dispatch for the same minute. */
  lemma UnansweredRepeats(s: Schedule, ticks: seq<TickEvent>, i: nat)
    requires TimeMovesOn(ticks) && i < |ticks| - 1 && !AnsweredAt(s, ticks, i)
    ensures !Rising(Fired(s, ticks))
  {
    var before := AfterTicks(s, ticks[..i]);
    SpecStays(s, ticks[..i]);
    FiredOneMore(s, ticks, i);
    FiredOneMore(s, ticks, i + 1);
    FiredPrefix(s, ticks, i + 2);
    assert ticks[i].now <= ticks[i + 1].now;
    hide Fired, AfterTicks;
    var fired, n := Fired(s, ticks[..i + 2]), |Fired(s, ticks[..i])|;
    assert fired[n] == fired[n + 1] == before.nextRunAt.value;
    assert Fired(s, ticks)[n] == Fired(s, ticks)[n + 1];
  }

  /** Over every run of ticks, no minute is dispatched twice, and none after a later one,
      exactly if every tick before the last was answered where the schedule was due. */
  lemma NoRefireExactly(s: Schedule, ticks: seq<TickEvent>)
    requires ticks != [] && Primed(s) && TimeMovesOn(ticks)
    ensures Rising(Fired(s, ticks)) <==> AnsweredSoFar(s, ticks)
  {
    if AnsweredSoFar(s, ticks) {
      FiresAtRisingMatches(s, ticks);
    } else {
      var init := ticks[..|ticks| - 1];
      var i: nat :| i < |init| && !AnsweredAt(s, init, i);
      assert init[..i] == ticks[..i];
      UnansweredRepeats(s, ticks, i);
    }
  }

  /** All dispatches were for the minute `t`, one at every tick. */
  ghost predicate AllAt(ms: seq<nat>, t: nat, n: nat) {
    |ms| == n && forall i :: 0 <= i < |ms| ==> ms[i] == t
  }

  lemma {:induction false} FiredAtMost(s: Schedule, ticks: seq<TickEvent>, k: nat)
    requires k <= |ticks|
    ensures |Fired(s, ticks)| <= |Fired(s, ticks[..k])| + |ticks| - k
    decreases |ticks|
  {
    if k == |ticks| {
      assert ticks[..k] == ticks;
    } else {
      var init := ticks[..|ticks| - 1];
      FiredAtMost(s, init, k);
      assert init[..k] == ticks[..k];
    }
  }

  ghost predicate Unanswered(spec: Spec, ticks: seq<TickEvent>) {
    forall i :: 0 <= i < |ticks| ==> NextOf(spec, ticks[i].now).None?
  }

  lemma {:induction false} CursorStays(s: Schedule, ticks: seq<TickEvent>)
    requires Unanswered(s.spec, ticks)
    ensures AfterTicks(s, ticks).nextRunAt == s.nextRunAt
  {
    if ticks != [] {
      CursorStays(s, ticks[..|ticks| - 1]);
      SpecStays(s, ticks[..|ticks| - 1]);
    }
  }

  lemma {:induction false} UnansweredAllAt(s: Schedule, ticks: seq<TickEvent>)
    requires ticks != [] && Due(s, ticks[0].now) && TimeMovesOn(ticks)
    requires Unanswered(s.spec, ticks[..|ticks| - 1])
    ensures AllAt(Fired(s, ticks), s.nextRunAt.value, |ticks|)
    decreases |ticks|
  {
    var init := ticks[..|ticks| - 1];
    SpecStays(s, init);
    CursorStays(s, init);
    assert ticks[0].now <= ticks[|ticks| - 1].now;
    if init != [] { UnansweredAllAt(s, init); }
    else { assert Fired(s, init) == []; }
  }

  lemma AnswerMovesOn(s: Schedule, ticks: seq<TickEvent>, i: nat)
    requires i < |ticks| - 1 && Due(s, ticks[0].now) && TimeMovesOn(ticks)
    requires Unanswered(s.spec, ticks[..i]) && NextOf(s.spec, ticks[i].now).Some?
    ensures !AllAt(Fired(s, ticks), s.nextRunAt.value, |ticks|)
  {
    CursorStays(s, ticks[..i]);
    SpecStays(s, ticks[..i]);
    assert ticks[0].now <= ticks[i].now;
    FiredOneMore(s, ticks, i);
    FiredOneMore(s, ticks, i + 1);
    ServedMovesOn(AfterTicks(s, ticks[..i]), ticks[i].now, ticks[i].outcome);
    FiredPrefix(s, ticks, i + 2);
    FiredAtMost(s, ticks[..i], 0);
    FiredAtMost(s, ticks, i + 2);
    assert ticks[..i][..0] == [];
    hide Fired, AfterTicks, Served, InstantOf, Primed;
    var fired, n := Fired(s, ticks[..i + 2]), |Fired(s, ticks[..i + 1])|;
    if n < |fired| {
      assert fired[n] == AfterTicks(s, ticks[..i + 1]).nextRunAt.value;
      assert Fired(s, ticks)[n] == fired[n];
    }
  }

  /** A due schedule is dispatched for one and the same minute at every tick of a run exactly
      if the search has no answer at any tick before the last. */
  lemma UnsolvedRefires(s: Schedule, ticks: seq<TickEvent>)
    requires ticks != [] && Due(s, ticks[0].now) && TimeMovesOn(ticks)
    ensures AllAt(Fired(s, ticks), s.nextRunAt.value, |ticks|) <==> Unanswered(s.spec, ticks[..|ticks| - 1])
  {
    hide Fired, AfterTicks, NextOf, Due;
    var init := ticks[..|ticks| - 1];
    if Unanswered(s.spec, init) {
      UnansweredAllAt(s, ticks);
    } else {
      var i := FirstAnswer(s.spec, init);
      assert init[..i] == ticks[..i];
      AnswerMovesOn(s, ticks, i);
    }
  }

  lemma {:induction false} FirstAnswer(spec: Spec, ticks: seq<TickEvent>) returns (i: nat)
    requires !Unanswered(spec, ticks)
    ensures i < |ticks| && NextOf(spec, ticks[i].now).Some? && Unanswered(spec, ticks[..i])
  {
    hide NextOf;
    i := 0;
    while NextOf(spec, ticks[i].now).None?
      invariant i < |ticks| && Unanswered(spec, ticks[..i])
      decreases |ticks| - i
    {
      i := i + 1;
    }
  }

  /** A run that dispatches one minute twice: a schedule for 29 February, last due in 2096, and
      two ticks on 1 March 2096. */
  lemma LeapScheduleRefires(s: Schedule, now: nat, cursor: nat, first: JobOutcome, second: JobOutcome)
    requires s.spec == Spec(One(0), One(0), One(29), One(2), Absent) && s.enabled
    requires cursor == MinuteOn(765242, 0, 0) && s.nextRunAt == Some(cursor)
    requires now == InstantOf(MinuteOn(765243, 0, 0))
    ensures Fired(s, [TickEvent(now, first), TickEvent(now, second)]) == [cursor, cursor]
  {
    var ticks := [TickEvent(now, first), TickEvent(now, second)];
    LeapSpecGivesUp(s.spec, now);
    hide NextOf, Fired, AfterTicks;
    UnsolvedRefires(s, ticks);
    assert ticks[..1] == [ticks[0]];
  }

  lemma LeapSpecGivesUp(spec: Spec, now: nat)
    requires spec == Spec(One(0), One(0), One(29), One(2), Absent)
    requires now == InstantOf(MinuteOn(765243, 0, 0))
    ensures NextOf(spec, now).None?
  {
    hide Answers, Matches, MinuteOn, InstantOf;
    var next := NextOf(spec, now);
    if next.Some? {
      GivesUpBefore2104(Parse(spec).fields, 765243, 768163, Next(next.value));
    }
  }
}
