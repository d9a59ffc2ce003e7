/** The rows of the optimization queue and the ways the worker and the poller rewrite them
    (`optimization/worker.py`, `optimization/poller.py`). */
module QueueItems {
  import opened Options

  type ItemId = nat

  datatype Status = Queued | Running | Routed | Completed | Failed | Skipped | Cancelled

  /** `job` stands for the upstream job id and integration id, present or missing together. */
  datatype Item = Item(status: Status, queuedAt: int, startedAt: Option<int>, finishedAt: Option<int>,
                       progress: int, job: Option<nat>)

  type Items = map<ItemId, Item>

  predicate Terminal(s: Status) {
    s.Completed? || s.Failed? || s.Skipped? || s.Cancelled?
  }

  /** What the stored fields of a row say about each other. */
  predicate RowOk(i: Item) {
    && (i.finishedAt.Some? <==> Terminal(i.status))
    && (i.startedAt.Some? <==> !i.status.Queued?)
    && (i.status.Queued? ==> i.progress == 0)
    && (i.status.Completed? ==> i.progress == 100)
  }

  // ---- Row transitions ----------------------------------------------------------------

  /** A new row (`upsert_queued`). */
  function Enqueued(at: int): Item {
    Item(Queued, at, None, None, 0, None)
  }

  /** The conditional UPDATE of `_claim_next`, and `_mark_running`. */
  function Claimed(i: Item, now: int): Item {
    i.(status := Running, startedAt := Some(now), progress := 0)
  }

  /** `_release_for_schedule`, and the re-queueing of transient submit errors. */
  function Released(i: Item): Item {
    i.(status := Queued, startedAt := None, progress := 0)
  }

  function Completion(i: Item, now: int): Item {
    i.(status := Completed, finishedAt := Some(now), progress := 100)
  }

  function Failure(i: Item, now: int): Item {
    i.(status := Failed, finishedAt := Some(now))
  }

  function Skipping(i: Item, now: int): Item {
    i.(status := Skipped, finishedAt := Some(now))
  }

  // ---- `_run_claimed` -----------------------------------------------------------------

  datatype Submission = Accepted(job: nat) | Refused | Transient | SubmitCrash

  /** What the gates of `_run_claimed` look at, in the order they look. */
  datatype Surroundings = Surroundings(
    mediaExists: bool, profileFound: bool, profileEnabled: bool, settingsValid: bool, windowOpen: bool,
    inProcess: bool, hasManager: bool, integrationUsable: bool, submission: Submission,
    runnerEnabled: bool, inputExists: bool, tooBig: bool, bitrateLow: bool,
    transcoded: bool, outputValid: bool, replaceInput: bool, swapped: bool, crashed: bool)

  datatype Decision = Requeue | Route(job: Option<nat>) | Finish | Fail | Skip

  function Decide(e: Surroundings): Decision {
    if e.crashed || !e.mediaExists || !e.profileFound then Fail
    else if !e.profileEnabled then Skip
    else if !e.settingsValid then Fail
    else if !e.windowOpen then Requeue
    else if !e.inProcess then
      if !e.hasManager then Route(None)
      else if !e.integrationUsable then Fail
      else (match e.submission
            case Accepted(job) => Route(Some(job))
            case Refused => Fail
            case Transient => Requeue
            case SubmitCrash => Requeue)
    else if !e.runnerEnabled || !e.inputExists then Fail
    else if e.tooBig || e.bitrateLow then Skip
    else if !e.transcoded || !e.outputValid then Fail
    else if e.replaceInput && !e.swapped then Fail
    else Finish
  }

  function Decided(i: Item, d: Decision, now: int): Item {
    match d
    case Requeue => Released(i)
    case Route(job) => i.(status := Routed, job := job)
    case Finish => Completion(i, now)
    case Fail => Failure(i, now)
    case Skip => Skipping(i, now)
  }

  /** Releasing a claimed row undoes the claim: it stands where it stood in the queue. */
  lemma ReleaseUndoesClaim(i: Item, now: int)
    requires i.status.Queued? && RowOk(i)
    ensures Released(Claimed(i, now)) == i
    ensures Claimed(i, now).status.Running? && Claimed(i, now).startedAt == Some(now)
  {
  }

  /** What each decision makes of a running row; nothing moves its place in the queue. */
  lemma DecidedMeans(i: Item, d: Decision, now: int)
    requires i.status.Running? && RowOk(i)
    ensures var r := Decided(i, d, now);
            && (r.status.Queued? <==> d.Requeue?) && (r.status.Routed? <==> d.Route?)
            && (r.status.Completed? <==> d.Finish?) && (r.status.Failed? <==> d.Fail?)
            && (r.status.Skipped? <==> d.Skip?)
            && (Terminal(r.status) ==> r.finishedAt == Some(now) && r.startedAt == i.startedAt)
            && (d.Route? ==> r.job == d.job)
            && r.queuedAt == i.queuedAt && RowOk(r)
  {
  }

  /** The media file and an enabled profile with valid settings are there. */
  predicate Resolved(e: Surroundings) {
    !e.crashed && e.mediaExists && e.profileFound && e.profileEnabled && e.settingsValid
  }

  /** A local run that gets as far as looking at the input file. */
  predicate RunsHere(e: Surroundings) {
    Resolved(e) && e.windowOpen && e.inProcess && e.runnerEnabled && e.inputExists
  }

  /** When a run ends how: outside the schedule window or on a transient submit error it waits,
      handed over it is routed, a limit or a disabled profile skips it, and only a transcode
      that is valid and, if asked, swapped in completes it. */
  lemma DecideExactly(e: Surroundings)
    ensures Decide(e).Requeue? <==>
              Resolved(e) && (!e.windowOpen || (!e.inProcess && e.hasManager && e.integrationUsable &&
                                                (e.submission.Transient? || e.submission.SubmitCrash?)))
    ensures Decide(e).Route? <==>
              Resolved(e) && e.windowOpen && !e.inProcess &&
              (e.hasManager ==> e.integrationUsable && e.submission.Accepted?)
    ensures Decide(e).Route? ==> Decide(e).job == if e.hasManager then Some(e.submission.job) else None
    ensures Decide(e).Skip? <==>
              || (!e.crashed && e.mediaExists && e.profileFound && !e.profileEnabled)
              || (RunsHere(e) && (e.tooBig || e.bitrateLow))
    ensures Decide(e).Finish? <==>
              RunsHere(e) && !e.tooBig && !e.bitrateLow && e.transcoded && e.outputValid &&
              (e.replaceInput ==> e.swapped)
  {
  }

  // ---- `_poll_one` --------------------------------------------------------------------

  /** What a poll learns, or how it goes wrong; `pct` is the provider's own number. */
  datatype PollAnswer =
    | Raises | IntegrationGone | NoProvider | JobDone | JobBroke | InFlight(pct: Option<int>) | Unknown

  datatype PollReport = PollReport(checked: nat, completed: nat, failed: nat, stillRunning: nat, errored: nat)

  const NO_POLLS := PollReport(0, 0, 0, 0, 0)

  predicate Balanced(r: PollReport) {
    r.checked == r.completed + r.failed + r.stillRunning + r.errored
  }

  function Clamp(pct: int): int {
    if pct < 0 then 0 else if pct > 100 then 100 else pct
  }

  function Polled(i: Item, a: PollAnswer, now: int): Item {
    if i.job.None? then i
    else match a
         case IntegrationGone => Failure(i, now)
         case JobBroke => Failure(i, now)
         case JobDone => Completion(i, now)
         case InFlight(pct) => if pct.Some? then i.(progress := Clamp(pct.value)) else i
         case _ => i
  }

  /** The SELECT of a poll pass. */
  function RoutedIds(items: Items): (ids: set<ItemId>)
    ensures ids <= items.Keys
  {
    set id | id in items && items[id].status.Routed?
  }

  /** How a poll of one item counts. */
  datatype Verdict = IsCompleted | IsFailed | IsStillRunning | IsErrored

  function VerdictOf(i: Item, a: PollAnswer): Verdict {
    if i.job.None? then IsErrored
    else match a
         case Raises => IsErrored
         case NoProvider => IsErrored
         case IntegrationGone => IsFailed
         case JobBroke => IsFailed
         case JobDone => IsCompleted
         case InFlight(_) => IsStillRunning
         case Unknown => IsStillRunning
  }

  /** What the provider's answer makes of a routed row with an upstream job, and how it counts:
      done completes it, broken or without integration fails it, anything else leaves it
      routed. */
  lemma PollMeans(i: Item, a: PollAnswer, now: int)
    requires i.status.Routed? && i.job.Some?
    ensures var r, v := Polled(i, a, now), VerdictOf(i, a);
            && (r.status.Completed? <==> a.JobDone?) && (v.IsCompleted? <==> a.JobDone?)
            && (r.status.Failed? <==> a.JobBroke? || a.IntegrationGone?)
            && (v.IsFailed? <==> a.JobBroke? || a.IntegrationGone?)
            && (r.status.Routed? <==> a.InFlight? || a.Unknown? || a.Raises? || a.NoProvider?)
            && (v.IsStillRunning? <==> a.InFlight? || a.Unknown?)
            && (v.IsErrored? <==> a.Raises? || a.NoProvider?)
            && (Terminal(r.status) ==> r.finishedAt == Some(now))
            && (r.status.Completed? ==> r.progress == 100)
  {
  }

  /** Progress is the provider's own number, kept between 0 and 100. */
  lemma ProgressMeans(i: Item, pct: int, now: int)
    requires i.status.Routed? && i.job.Some?
    ensures var r := Polled(i, InFlight(Some(pct)), now);
            && r == i.(progress := r.progress) && 0 <= r.progress <= 100
            && (0 <= pct <= 100 ==> r.progress == pct)
            && (pct < 0 ==> r.progress == 0) && (pct > 100 ==> r.progress == 100)
  {
  }

  /** A row without upstream ids is left alone and counts as an error. */
  lemma UnroutableMeans(i: Item, a: PollAnswer, now: int)
    requires i.job.None?
    ensures Polled(i, a, now) == i && VerdictOf(i, a).IsErrored?
  {
  }

  /** What the poller's commit stores in a row: the attributes it changed on the copy it had
      loaded, and no other. */
  function Stored(row: Item, loaded: Item, polled: Item): Item {
    row.(status := if polled.status != loaded.status then polled.status else row.status,
         finishedAt := if polled.finishedAt != loaded.finishedAt then polled.finishedAt else row.finishedAt,
         progress := if polled.progress != loaded.progress then polled.progress else row.progress)
  }

  /** How the poll of a loaded copy counts: where the row is gone, a commit that has something
      to store raises. */
  function PollVerdict(present: bool, loaded: Item, a: PollAnswer, now: int): Verdict {
    if !present && Polled(loaded, a, now) != loaded then IsErrored else VerdictOf(loaded, a)
  }

  function Counted(r: PollReport, v: Verdict): PollReport {
    var r := r.(checked := r.checked + 1);
    match v
    case IsCompleted => r.(completed := r.completed + 1)
    case IsFailed => r.(failed := r.failed + 1)
    case IsStillRunning => r.(stillRunning := r.stillRunning + 1)
    case IsErrored => r.(errored := r.errored + 1)
  }

  type Verdicts = map<ItemId, Verdict>

  /** The items with a given verdict. */
  function Judged(vs: Verdicts, v: Verdict): set<ItemId> {
    set id | id in vs && vs[id] == v
  }

  /** The table once the items of `ids` have been polled. */
  function PolledRows(items: Items, ids: set<ItemId>, answers: ItemId -> PollAnswer, now: int): Items {
    map id | id in items :: if id in ids then Polled(items[id], answers(id), now) else items[id]
  }

  lemma PolledOneMore(items: Items, ids: set<ItemId>, answers: ItemId -> PollAnswer, now: int, id: ItemId)
    requires id in items && id !in ids
    ensures var rows := PolledRows(items, ids, answers, now);
            id in rows && rows[id] == items[id] &&
            PolledRows(items, ids + {id}, answers, now) == rows[id := Polled(items[id], answers(id), now)]
  {
    hide Polled;
  }

  lemma NonePolled(items: Items, answers: ItemId -> PollAnswer, now: int)
    ensures PolledRows(items, {}, answers, now) == items
  {
    assert PolledRows(items, {}, answers, now) == items;
  }

  /** The report counts each verdict. */
  ghost predicate Reports(r: PollReport, vs: Verdicts) {
    && r.checked == |vs.Keys|
    && r.completed == |Judged(vs, IsCompleted)|
    && r.failed == |Judged(vs, IsFailed)|
    && r.stillRunning == |Judged(vs, IsStillRunning)|
    && r.errored == |Judged(vs, IsErrored)|
  }

  lemma JudgedOneMore(vs: Verdicts, id: ItemId, v: Verdict, w: Verdict)
    requires id !in vs
    ensures |Judged(vs[id := v], w)| == |Judged(vs, w)| + if v == w then 1 else 0
  {
    if v == w { assert Judged(vs[id := v], w) == Judged(vs, w) + {id}; }
    else { assert Judged(vs[id := v], w) == Judged(vs, w); }
  }

  lemma ReportsOneMore(r: PollReport, vs: Verdicts, id: ItemId, v: Verdict)
    requires Reports(r, vs) && id !in vs
    ensures Reports(Counted(r, v), vs[id := v])
  {
    hide Judged;
    assert vs[id := v].Keys == vs.Keys + {id};
    JudgedOneMore(vs, id, v, IsCompleted);
    JudgedOneMore(vs, id, v, IsFailed);
    JudgedOneMore(vs, id, v, IsStillRunning);
    JudgedOneMore(vs, id, v, IsErrored);
  }

  /** Every polled item has one verdict, so the counts add up. */
  lemma ReportsBalance(r: PollReport, vs: Verdicts)
    requires Reports(r, vs)
    ensures Balanced(r)
  {
    var done, failed := Judged(vs, IsCompleted), Judged(vs, IsFailed);
    var running, errored := Judged(vs, IsStillRunning), Judged(vs, IsErrored);
    JudgedApart(vs, IsCompleted, IsFailed);
    JudgedApart(vs, IsCompleted, IsStillRunning);
    JudgedApart(vs, IsFailed, IsStillRunning);
    JudgedApart(vs, IsCompleted, IsErrored);
    JudgedApart(vs, IsFailed, IsErrored);
    JudgedApart(vs, IsStillRunning, IsErrored);
    AllJudged(vs);
    hide Judged;
    DisjointSizes(done, failed);
    DisjointSizes(done + failed, running);
    DisjointSizes(done + failed + running, errored);
  }

  lemma JudgedApart(vs: Verdicts, v: Verdict, w: Verdict)
    requires v != w
    ensures Judged(vs, v) !! Judged(vs, w)
  {
  }

  lemma AllJudged(vs: Verdicts)
    ensures vs.Keys ==
            Judged(vs, IsCompleted) + Judged(vs, IsFailed) + Judged(vs, IsStillRunning) + Judged(vs, IsErrored)
  {
    forall id | id in vs
      ensures id in Judged(vs, IsCompleted) + Judged(vs, IsFailed) + Judged(vs, IsStillRunning) + Judged(vs, IsErrored)
    {
      match vs[id]
      case IsCompleted => assert id in Judged(vs, IsCompleted);
      case IsFailed => assert id in Judged(vs, IsFailed);
      case IsStillRunning => assert id in Judged(vs, IsStillRunning);
      case IsErrored => assert id in Judged(vs, IsErrored);
    }
  }

  lemma DisjointSizes(a: set<ItemId>, b: set<ItemId>)
    requires a !! b
    ensures |a + b| == |a| + |b|
  {
  }

  /** The verdict agrees with what the poll does to a routed row, and a row without upstream
      ids or with a failed poll is left alone. */
  lemma VerdictMatchesRow(i: Item, a: PollAnswer, now: int)
    requires i.status.Routed?
    ensures Stored(i, i, Polled(i, a, now)) == Polled(i, a, now)
    ensures VerdictOf(i, a).IsCompleted? <==> Polled(i, a, now).status.Completed?
    ensures VerdictOf(i, a).IsFailed? <==> Polled(i, a, now).status.Failed?
    ensures VerdictOf(i, a).IsStillRunning? ==> Polled(i, a, now) == i.(progress := Polled(i, a, now).progress)
    ensures VerdictOf(i, a).IsErrored? ==> Polled(i, a, now) == i
    ensures RowOk(i) ==> RowOk(Polled(i, a, now))
  {
  }

  // ---- The queue's order --------------------------------------------------------------

  /** `id` may come back from `SELECT ... WHERE status = 'queued' ORDER BY queued_at LIMIT 1`. */
  ghost predicate Oldest(items: Items, id: ItemId) {
    && id in items && items[id].status.Queued?
    && forall k :: k in items && items[k].status.Queued? ==> items[id].queuedAt <= items[k].queuedAt
  }

  ghost predicate NoneQueued(items: Items) {
    forall k :: k in items ==> !items[k].status.Queued?
  }
}
