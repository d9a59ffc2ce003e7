/** The worker's claim loop, among other writers, and the poller's pass over the table. */
module QueueTable {
  import opened Options
  import opened QueueItems

  const CLAIM_ATTEMPTS := 16

  /** A committed write by somebody else: a row stored under an id, or a row deleted. */
  datatype RowEvent = Store(id: ItemId, row: Item) | Remove(id: ItemId)

  /** What others do during one attempt. */
  datatype Gap = Gap(beforeUpdate: seq<RowEvent>, beforeReload: seq<RowEvent>)

  const QUIET := Gap([], [])

  ghost predicate Quiet(gaps: nat -> Gap) {
    forall k :: gaps(k) == QUIET
  }

  function AfterEvent(items: Items, e: RowEvent): Items {
    match e
    case Store(id, row) => items[id := row]
    case Remove(id) => items - {id}
  }

  function AfterEvents(items: Items, es: seq<RowEvent>): Items {
    if es == [] then items
    else AfterEvent(AfterEvents(items, es[..|es| - 1]), es[|es| - 1])
  }

  /** The event changes the status of a row or deletes one. */
  predicate Disturbs(items: Items, e: RowEvent) {
    e.id in items && (e.Remove? || e.row.status != items[e.id].status)
  }

  function Disturbances(items: Items, es: seq<RowEvent>): nat {
    if es == [] then 0
    else
      var init := es[..|es| - 1];
      Disturbances(items, init) + if Disturbs(AfterEvents(items, init), es[|es| - 1]) then 1 else 0
  }

  /** A row whose status others changed, or that they deleted, was disturbed by them. */
  lemma {:induction false} ChangeIsCounted(items: Items, es: seq<RowEvent>, id: ItemId)
    requires id in items
    ensures var after := AfterEvents(items, es);
            (id in after && after[id].status == items[id].status) || Disturbances(items, es) > 0
  {
    if es != [] {
      ChangeIsCounted(items, es[..|es| - 1], id);
    }
  }

  class Table {
    var rows: Items
    ghost var disturbed: nat

    /** The SELECT of the claim loop: an oldest queued row, ties broken either way. */
    method SelectOldest() returns (candidate: Option<ItemId>)
      ensures candidate.None? ==> NoneQueued(rows)
      ensures candidate.Some? ==> Oldest(rows, candidate.value)
    {
      candidate := None;
      var todo := rows.Keys;
      while todo != {}
        invariant todo <= rows.Keys
        invariant candidate.None? ==> forall k :: k in rows && k !in todo ==> !rows[k].status.Queued?
        invariant candidate.Some? ==>
                    && candidate.value in rows && rows[candidate.value].status.Queued?
                    && forall k :: k in rows && k !in todo && rows[k].status.Queued? ==>
                         rows[candidate.value].queuedAt <= rows[k].queuedAt
      {
        var id :| id in todo;
        if rows[id].status.Queued? &&
           (candidate.None? || rows[id].queuedAt < rows[candidate.value].queuedAt) {
          candidate := Some(id);
        }
        todo := todo - {id};
      }
    }

    /** The conditional UPDATE; the result is its row count. */
    method TryClaim(id: ItemId, now: int) returns (rowcount: nat)
      modifies `rows
      ensures rowcount == if id in old(rows) && old(rows)[id].status.Queued? then 1 else 0
      ensures rows == if rowcount == 1 then old(rows)[id := Claimed(old(rows)[id], now)] else old(rows)
    {
      if id in rows && rows[id].status.Queued? {
        rows := rows[id := Claimed(rows[id], now)];
        return 1;
      }
      return 0;
    }

    /** Other actors write to the table; `disturbed` counts their status changes and
        deletions. */
    method Others(events: seq<RowEvent>)
      modifies this
      ensures rows == AfterEvents(old(rows), events)
      ensures disturbed == old(disturbed) + Disturbances(old(rows), events)
    {
      var k := 0;
      while k < |events|
        invariant 0 <= k <= |events|
        invariant rows == AfterEvents(old(rows), events[..k])
        invariant disturbed == old(disturbed) + Disturbances(old(rows), events[..k])
      {
        assert events[..k + 1][..k] == events[..k];
        disturbed := disturbed + if Disturbs(rows, events[k]) then 1 else 0;
        rows := AfterEvent(rows, events[k]);
        k := k + 1;
      }
      assert events[..k] == events;
    }

    /** `_claim_next` while others write between its SELECT, its UPDATE and its reload.
        It gives up only after sixteen disturbances; without a candidate nothing is queued;
        a row it returns was queued in the table `seen` by its UPDATE, which set it running
        and touched no other row, and only others wrote after that; and when nobody else
        writes it claims an oldest queued row. */
    method ClaimNext(now: int, gaps: nat -> Gap)
      returns (claimed: Option<ItemId>, gaveUp: bool, ghost attempt: nat, ghost seen: Items)
      modifies this
      ensures gaveUp ==> claimed.None? && disturbed >= old(disturbed) + 16
      ensures claimed.None? && !gaveUp ==> NoneQueued(rows)
      ensures claimed.Some? ==>
                && claimed.value in rows
                && claimed.value in seen && seen[claimed.value].status.Queued?
                && rows == AfterEvents(seen[claimed.value := Claimed(seen[claimed.value], now)],
                                       gaps(attempt).beforeReload)
      ensures Quiet(gaps) ==>
                && disturbed == old(disturbed)
                && (claimed.None? <==> NoneQueued(old(rows)))
                && (claimed.None? ==> rows == old(rows))
                && (claimed.Some? ==>
                      Oldest(old(rows), claimed.value) &&
                      rows == old(rows)[claimed.value := Claimed(old(rows)[claimed.value], now)])
    {
      attempt, seen := 0, rows;
      var tries := 0;
      while tries < CLAIM_ATTEMPTS
        invariant 0 <= tries <= CLAIM_ATTEMPTS
        invariant disturbed >= old(disturbed) + tries
        invariant Quiet(gaps) ==> rows == old(rows) && disturbed == old(disturbed)
      {
        var gap := gaps(tries);
        attempt := tries;
        assert Quiet(gaps) ==> gap.beforeUpdate == [] && gap.beforeReload == [];
        var candidate := SelectOldest();
        if candidate.None? { return None, false, attempt, seen; }
        Meddle(gap.beforeUpdate, candidate.value);
        seen := rows;
        var rowcount := TryClaim(candidate.value, now);
        if rowcount == 1 {
          Meddle(gap.beforeReload, candidate.value);
          if candidate.value in rows { return candidate, false, attempt, seen; }
        }
        tries := tries + 1;
      }
      return None, true, attempt, seen;
    }

    /** A gap in which a row may lose its status or vanish: if it does, that was counted. */
    method Meddle(events: seq<RowEvent>, id: ItemId)
      modifies this
      ensures rows == AfterEvents(old(rows), events)
      ensures disturbed == old(disturbed) + Disturbances(old(rows), events)
      ensures id in old(rows) && (id !in rows || rows[id].status != old(rows)[id].status) ==> disturbed > old(disturbed)
    {
      if id in rows { ChangeIsCounted(rows, events, id); }
      Others(events);
    }

    /** `_poll_one` and the handler around it, on the copy of the row that the pass loaded. */
    method PollOne(id: ItemId, loaded: Item, now: int, answer: PollAnswer, report: PollReport)
      returns (next: PollReport)
      modifies `rows
      ensures id in old(rows) ==> rows == old(rows)[id := Stored(old(rows)[id], loaded, Polled(loaded, answer, now))]
      ensures id !in old(rows) ==> rows == old(rows)
      ensures next == Counted(report, PollVerdict(id in old(rows), loaded, answer, now))
    {
      next := report.(checked := report.checked + 1);
      var row := loaded;
      if loaded.job.None? || answer.NoProvider? || answer.Raises? {
        return next.(errored := next.errored + 1);
      } else if answer.IntegrationGone? || answer.JobBroke? {
        row := Failure(row, now);
      } else if answer.JobDone? {
        row := Completion(row, now);
      } else if answer.InFlight? && answer.pct.Some? {
        row := row.(progress := Clamp(answer.pct.value));
      }
      if row != loaded {
        var committed := Commit(id, loaded, row);
        if !committed { return next.(errored := next.errored + 1); }
      }
      if answer.IntegrationGone? || answer.JobBroke? { return next.(failed := next.failed + 1); }
      if answer.JobDone? { return next.(completed := next.completed + 1); }
      return next.(stillRunning := next.stillRunning + 1);
    }

    /** A commit of a changed copy, which raises if the row is gone. */
    method Commit(id: ItemId, loaded: Item, changed: Item) returns (ok: bool)
      modifies `rows
      ensures ok <==> id in old(rows)
      ensures rows == if ok then old(rows)[id := Stored(old(rows)[id], loaded, changed)] else old(rows)
    {
      ok := id in rows;
      if ok { rows := rows[id := Stored(rows[id], loaded, changed)]; }
    }

    /** One round of the pass: others write, then the loaded copy is polled. */
    method PollTurn(id: ItemId, loaded: Item, now: int, answer: PollAnswer, others: seq<RowEvent>, report: PollReport)
      returns (next: PollReport, ghost v: Verdict)
      modifies this
      ensures next == Counted(report, v) && MayJudge(loaded, answer, now, v)
      ensures others == [] && id in old(rows) && old(rows)[id] == loaded ==>
                && v == VerdictOf(loaded, answer)
                && rows == old(rows)[id := Polled(loaded, answer, now)] && disturbed == old(disturbed)
    {
      Others(others);
      v := PollVerdict(id in rows, loaded, answer, now);
      next := PollOne(id, loaded, now, answer, report);
    }

    /** `poll_routed_transcodes` while others write before each poll. Every row that was routed
        at the SELECT gets one verdict, by its loaded copy and its answer, or an error where
        the row is gone; the counts are those of the verdicts, so they add up whatever was
        raised. When nobody else writes, each such row is polled and no other row changes. */
    method PollPass(now: int, answers: ItemId -> PollAnswer, gaps: ItemId -> seq<RowEvent>)
      returns (report: PollReport, ghost verdicts: Verdicts)
      modifies this
      ensures verdicts.Keys == set id | id in old(rows) && old(rows)[id].status.Routed?
      ensures MayReport(old(rows), answers, now, verdicts)
      ensures Reports(report, verdicts) && Balanced(report)
      ensures NoGaps(gaps) ==>
                && disturbed == old(disturbed)
                && rows == PolledRows(old(rows), RoutedIds(old(rows)), answers, now)
                && MustReport(old(rows), answers, verdicts)
                && EndsAsAnswered(old(rows), rows, answers)
                && report.completed == |Ended(old(rows), answers, JobDone)|
                && report.failed == |Ended(old(rows), answers, JobBroke) + Ended(old(rows), answers, IntegrationGone)|
    {
      report, verdicts := NO_POLLS, map[];
      var loaded := rows;
      var todo := RoutedIds(rows);
      NonePolled(rows, answers, now);
      NoVerdicts(loaded, answers, now);
      RoutedIdsExactly(rows);
      AnswersDecide(loaded, answers, now);
      hide Reports, PolledRows, MayReport, MustReport, RoutedIds, Polled, VerdictOf, MayJudge;
      hide Counted, EndsAsAnswered, Ended;
      while todo != {}
        invariant todo !! verdicts.Keys && todo + verdicts.Keys == RoutedIds(old(rows))
        invariant Reports(report, verdicts) && MayReport(loaded, answers, now, verdicts)
        invariant NoGaps(gaps) ==> disturbed == old(disturbed) && MustReport(loaded, answers, verdicts)
        invariant NoGaps(gaps) ==> rows == PolledRows(loaded, verdicts.Keys, answers, now)
      {
        var id :| id in todo;
        PolledOneMore(loaded, verdicts.Keys, answers, now, id);
        ghost var v;
        ghost var before := report;
        report, v := PollTurn(id, loaded[id], now, answers(id), gaps(id), report);
        ReportsOneMore(before, verdicts, id, v);
        VerdictsOneMore(loaded, answers, now, verdicts, id, v);
        assert verdicts[id := v].Keys == verdicts.Keys + {id};
        todo, verdicts := todo - {id}, verdicts[id := v];
      }
      assert verdicts.Keys == RoutedIds(old(rows));
      ReportsBalance(report, verdicts);
      if NoGaps(gaps) { VerdictsCount(loaded, answers, report, verdicts); }
    }
  }

  /** The routed rows with an upstream job whose provider gives this answer. */
  function Ended(items: Items, answers: ItemId -> PollAnswer, a: PollAnswer): set<ItemId> {
    set id | id in items && items[id].status.Routed? && items[id].job.Some? && answers(id) == a
  }

  /** Of the rows routed before, exactly those whose provider says done are completed, and
      exactly those whose provider says broken or whose integration is gone have failed. */
  ghost predicate EndsAsAnswered(before: Items, after: Items, answers: ItemId -> PollAnswer) {
    forall id :: id in before && before[id].status.Routed? ==>
      && id in after
      && (after[id].status.Completed? <==> id in Ended(before, answers, JobDone))
      && (after[id].status.Failed? <==>
            id in Ended(before, answers, JobBroke) || id in Ended(before, answers, IntegrationGone))
  }

  lemma RoutedIdsExactly(items: Items)
    ensures RoutedIds(items) == set id | id in items && items[id].status.Routed?
  {
  }

  lemma AnswersDecide(items: Items, answers: ItemId -> PollAnswer, now: int)
    ensures EndsAsAnswered(items, PolledRows(items, RoutedIds(items), answers, now), answers)
  {
    var after := PolledRows(items, RoutedIds(items), answers, now);
    forall id | id in RoutedIds(items)
      ensures id in after && after[id] == Polled(items[id], answers(id), now)
      ensures after[id].status.Completed? <==> id in Ended(items, answers, JobDone)
      ensures after[id].status.Failed? <==>
                id in Ended(items, answers, JobBroke) || id in Ended(items, answers, IntegrationGone)
    {
      if items[id].job.Some? { PollMeans(items[id], answers(id), now); }
      else { UnroutableMeans(items[id], answers(id), now); }
    }
  }

  lemma VerdictsCount(items: Items, answers: ItemId -> PollAnswer, r: PollReport, vs: Verdicts)
    requires Reports(r, vs) && vs.Keys == RoutedIds(items) && MustReport(items, answers, vs)
    ensures r.completed == |Ended(items, answers, JobDone)|
    ensures r.failed == |Ended(items, answers, JobBroke) + Ended(items, answers, IntegrationGone)|
  {
    forall id | id in vs
      ensures vs[id].IsCompleted? <==> id in Ended(items, answers, JobDone)
      ensures vs[id].IsFailed? <==>
                id in Ended(items, answers, JobBroke) || id in Ended(items, answers, IntegrationGone)
    {
      if items[id].job.Some? { PollMeans(items[id], answers(id), 0); }
      else { UnroutableMeans(items[id], answers(id), 0); }
    }
    hide VerdictOf;
    assert Judged(vs, IsCompleted) == Ended(items, answers, JobDone);
    assert Judged(vs, IsFailed) == Ended(items, answers, JobBroke) + Ended(items, answers, IntegrationGone);
  }

  ghost predicate NoGaps(gaps: ItemId -> seq<RowEvent>) {
    forall id :: gaps(id) == []
  }

  /** The verdicts the poll of a copy may get: by its answer, or as that of a row now gone. */
  predicate MayJudge(loaded: Item, a: PollAnswer, now: int, v: Verdict) {
    v == VerdictOf(loaded, a) || v == PollVerdict(false, loaded, a, now)
  }

  ghost predicate MayReport(loaded: Items, answers: ItemId -> PollAnswer, now: int, vs: Verdicts) {
    forall id :: id in vs ==> id in loaded && MayJudge(loaded[id], answers(id), now, vs[id])
  }

  ghost predicate MustReport(loaded: Items, answers: ItemId -> PollAnswer, vs: Verdicts) {
    forall id :: id in vs ==> id in loaded && vs[id] == VerdictOf(loaded[id], answers(id))
  }

  lemma NoVerdicts(loaded: Items, answers: ItemId -> PollAnswer, now: int)
    ensures Reports(NO_POLLS, map[])
    ensures MayReport(loaded, answers, now, map[]) && MustReport(loaded, answers, map[])
  {
  }

  lemma VerdictsOneMore(loaded: Items, answers: ItemId -> PollAnswer, now: int, vs: Verdicts, id: ItemId, v: Verdict)
    requires id in loaded && MayReport(loaded, answers, now, vs) && MayJudge(loaded[id], answers(id), now, v)
    ensures MayReport(loaded, answers, now, vs[id := v])
    ensures MustReport(loaded, answers, vs) && v == VerdictOf(loaded[id], answers(id)) ==>
              MustReport(loaded, answers, vs[id := v])
  {
    hide VerdictOf, MayJudge;
  }
}
