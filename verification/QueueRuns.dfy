/** The optimization queue as a protocol: any number of workers, one poller and the
    operator's endpoints take interleaved steps on the shared table. The worker's SELECT,
    UPDATE and reload are separate steps, as in `_claim_next`. */
module QueueRuns {
  import opened Options
  import opened QueueItems
  import opened QueueTable

  type WorkerId = nat

  /** Where a worker stands. `tries` counts lost attempts of the claim loop; a worker that
      won its UPDATE, or is inside `_run_claimed`, owns its item. */
  datatype Worker =
    | Idle
    | Choosing(tries: nat)
    | Chosen(tries: nat, id: ItemId)
    | Won(tries: nat, id: ItemId)
    | Holding(id: ItemId)
    | SawQueued(id: ItemId)

  /** `loaded` are the rows as the poller's SELECT read them. */
  datatype Poller = Resting | Polling(todo: seq<ItemId>, loaded: Items, report: PollReport)

  /** `issued` holds every row id ever used: ids are random and never come back. */
  datatype State = State(items: Items, issued: set<ItemId>, workers: map<WorkerId, Worker>, poller: Poller)

  datatype Step =
    | Enqueue(id: ItemId, at: int)
    | Begin(w: WorkerId)
    | Select(w: WorkerId, pick: Option<ItemId>)
    | Update(w: WorkerId, now: int)
    | Reload(w: WorkerId)
    | Report(w: WorkerId, pct: int)
    | End(w: WorkerId, seen: Surroundings, now: int)
    | PollBegin(listing: seq<ItemId>)
    | PollNext(answer: PollAnswer, now: int)
    | PollEnd
    | Delete(id: ItemId)
    | RunItemRead(w: WorkerId, id: ItemId)
    | RunItemMark(w: WorkerId, now: int)
    | RunItemAtOnce(w: WorkerId, id: ItemId, now: int)
    | Cancel(id: ItemId, now: int)
    | Retry(id: ItemId, now: int)

  const START := State(map[], {}, map[], Resting)

  function At(s: State, w: WorkerId): Worker {
    if w in s.workers then s.workers[w] else Idle
  }

  function Put(s: State, w: WorkerId, p: Worker): State {
    s.(workers := s.workers[w := p])
  }

  /** Losing an attempt: try again, or give up after the last one. */
  function Lost(tries: nat): Worker {
    if tries + 1 < CLAIM_ATTEMPTS then Choosing(tries + 1) else Idle
  }

  ghost predicate Enabled(s: State, step: Step) {
    match step
    case Enqueue(id, _) => (id in s.items && s.items[id].status.Queued?) || id !in s.issued
    case Begin(w) => At(s, w).Idle?
    case Select(w, pick) =>
      At(s, w).Choosing? && (if pick.Some? then Oldest(s.items, pick.value) else NoneQueued(s.items))
    case Update(w, _) => At(s, w).Chosen?
    case Reload(w) => At(s, w).Won?
    case Report(w, _) => At(s, w).Holding?
    case End(w, _, _) => At(s, w).Holding?
    case PollBegin(listing) =>
      && s.poller.Resting?
      && Distinct(listing)
      && (forall id :: id in listing <==> id in s.items && s.items[id].status.Routed?)
    case PollNext(_, _) => s.poller.Polling? && s.poller.todo != []
    case PollEnd => s.poller.Polling? && s.poller.todo == []
    case Delete(id) => id in s.items
    case RunItemRead(w, id) => At(s, w).Idle? && id in s.items && s.items[id].status.Queued?
    case RunItemMark(w, _) => At(s, w).SawQueued?
    case RunItemAtOnce(w, id, _) => At(s, w).Idle? && id in s.items && s.items[id].status.Queued?
    case Cancel(id, _) => id in s.items && (s.items[id].status.Queued? || s.items[id].status.Running?)
    case Retry(id, _) => id in s.items && Terminal(s.items[id].status)
  }

  function Apply(s: State, step: Step): State {
    match step
    case Enqueue(id, at) =>
      if id in s.items then s.(items := s.items[id := s.items[id].(queuedAt := at)])
      else s.(items := s.items[id := Enqueued(at)], issued := s.issued + {id})
    case Begin(w) => Put(s, w, Choosing(0))
    case Select(w, pick) =>
      if At(s, w).Choosing? && pick.Some? then Put(s, w, Chosen(At(s, w).tries, pick.value)) else Put(s, w, Idle)
    case Update(w, now) =>
      var p := At(s, w);
      if !p.Chosen? then s
      else if p.id in s.items && s.items[p.id].status.Queued?
      then Put(s.(items := s.items[p.id := Claimed(s.items[p.id], now)]), w, Won(p.tries, p.id))
      else Put(s, w, Lost(p.tries))
    case Reload(w) =>
      var p := At(s, w);
      if !p.Won? then s
      else Put(s, w, if p.id in s.items then Holding(p.id) else Lost(p.tries))
    case Report(w, pct) =>
      var p := At(s, w);
      if p.Holding? && p.id in s.items then s.(items := s.items[p.id := s.items[p.id].(progress := pct)]) else s
    case End(w, seen, now) =>
      var p := At(s, w);
      if p.Holding? && p.id in s.items
      then Put(s.(items := s.items[p.id := Decided(s.items[p.id], Decide(seen), now)]), w, Idle)
      else Put(s, w, Idle)
    case PollBegin(listing) => s.(poller := Polling(listing, s.items, NO_POLLS))
    case PollNext(answer, now) =>
      if s.poller.Resting? || s.poller.todo == [] || s.poller.todo[0] !in s.poller.loaded then s
      else
        var id, loaded := s.poller.todo[0], s.poller.loaded[s.poller.todo[0]];
        var verdict := PollVerdict(id in s.items, loaded, answer, now);
        s.(items := if id in s.items
                    then s.items[id := Stored(s.items[id], loaded, Polled(loaded, answer, now))] else s.items,
           poller := Polling(s.poller.todo[1..], s.poller.loaded, Counted(s.poller.report, verdict)))
    case PollEnd => s.(poller := Resting)
    case Delete(id) => s.(items := s.items - {id})
    case RunItemRead(w, id) => Put(s, w, SawQueued(id))
    case RunItemMark(w, now) =>
      var p := At(s, w);
      if !p.SawQueued? then s
      else if p.id in s.items then Put(s.(items := s.items[p.id := Claimed(s.items[p.id], now)]), w, Holding(p.id))
      else Put(s, w, Idle)
    case RunItemAtOnce(w, id, now) =>
      if id in s.items then Put(s.(items := s.items[id := Claimed(s.items[id], now)]), w, Holding(id)) else s
    case Cancel(id, now) =>
      if id in s.items
      then s.(items := s.items[id := s.items[id].(status := Cancelled, finishedAt := Some(now))])
      else s
    case Retry(id, now) =>
      if id in s.items
      then s.(items := s.items[id := s.items[id].(status := Queued, startedAt := None, finishedAt := None,
                                                  progress := 0, queuedAt := now)])
      else s
  }

  /** The steps of `run_one` workers, the poller, the rules that enqueue, and file deletion;
      and `run_item` when its read and its mark are one step. */
  predicate Core(step: Step) {
    !(step.RunItemRead? || step.RunItemMark? || step.Cancel? || step.Retry?)
  }

  ghost predicate Run(states: seq<State>, steps: seq<Step>) {
    && |states| == |steps| + 1
    && forall i :: 0 <= i < |steps| ==> StepAt(states, steps, i)
  }

  ghost predicate StepAt(states: seq<State>, steps: seq<Step>, i: nat)
    requires i < |steps| && |states| == |steps| + 1
  {
    Enabled(states[i], steps[i]) && states[i + 1] == Apply(states[i], steps[i])
  }

  // ---- Ownership ----------------------------------------------------------------------

  predicate Owner(p: Worker) {
    p.Won? || p.Holding?
  }

  predicate Owns(s: State, w: WorkerId, id: ItemId) {
    Owner(At(s, w)) && At(s, w).id == id
  }

  ghost predicate Owned(s: State, id: ItemId) {
    exists w :: Owns(s, w, id)
  }

  /** No item has two owners; every running item has one; queued items have none; and only
      ids in use are held. */
  ghost predicate Exclusive(s: State) {
    && (forall w, v, id :: Owns(s, w, id) && Owns(s, v, id) ==> w == v)
    && (forall id :: id in s.items && s.items[id].status.Running? ==> Owned(s, id))
    && (forall w, id :: Owns(s, w, id) && id in s.items ==> !s.items[id].status.Queued?)
    && s.items.Keys <= s.issued
    && (forall w, id :: Owns(s, w, id) ==> id in s.issued)
  }

  /** Steps that change rows but no worker: nothing may start running or return to queued. */
  lemma RowsOnly(s: State, t: State)
    requires Exclusive(s) && t.workers == s.workers
    requires s.issued <= t.issued && t.items.Keys <= t.issued
    requires forall id :: id in t.items && t.items[id].status.Running? ==> id in s.items && s.items[id].status.Running?
    requires forall id :: id in t.items && t.items[id].status.Queued? && id in s.issued ==>
               (id in s.items && s.items[id].status.Queued?) || !Owned(s, id)
    ensures Exclusive(t)
  {
    assert forall w, id :: Owns(t, w, id) <==> Owns(s, w, id);
    forall id | id in t.items && t.items[id].status.Running? ensures Owned(t, id) {
      var w :| Owns(s, w, id);
      assert Owns(t, w, id);
    }
  }

  /** A worker that owns nothing moves to a place where it owns nothing. */
  lemma BystanderMoves(s: State, w: WorkerId, p: Worker)
    requires Exclusive(s) && !Owner(At(s, w)) && !Owner(p)
    ensures Exclusive(Put(s, w, p))
  {
    var t := Put(s, w, p);
    assert forall v, id :: Owns(t, v, id) <==> Owns(s, v, id);
    forall id | id in t.items && t.items[id].status.Running? ensures Owned(t, id) {
      var v :| Owns(s, v, id);
      assert Owns(t, v, id);
    }
  }

  /** A worker that owns nothing takes a row nobody owns. */
  lemma Takes(s: State, w: WorkerId, id: ItemId, now: int, p: Worker)
    requires Exclusive(s) && !Owner(At(s, w)) && Owner(p) && p.id == id
    requires id in s.items && !Owned(s, id)
    ensures Exclusive(Put(s.(items := s.items[id := Claimed(s.items[id], now)]), w, p))
  {
    var t := Put(s.(items := s.items[id := Claimed(s.items[id], now)]), w, p);
    assert forall v, k :: Owns(t, v, k) <==> Owns(s, v, k) || (v == w && k == id);
    forall k | k in t.items && t.items[k].status.Running? ensures Owned(t, k) {
      if k == id { assert Owns(t, w, k); }
      else {
        var v :| Owns(s, v, k);
        assert Owns(t, v, k);
      }
    }
  }

  /** An owner keeps its row across the reload. */
  lemma KeepsHold(s: State, w: WorkerId)
    requires Exclusive(s) && At(s, w).Won?
    ensures Exclusive(Put(s, w, Holding(At(s, w).id)))
  {
    var t := Put(s, w, Holding(At(s, w).id));
    assert forall v, id :: Owns(t, v, id) <==> Owns(s, v, id);
    forall id | id in t.items && t.items[id].status.Running? ensures Owned(t, id) {
      var v :| Owns(s, v, id);
      assert Owns(t, v, id);
    }
  }

  /** An owner lets go, leaving its row, if it still exists, in any state but running. */
  lemma LetsGo(s: State, w: WorkerId, items: Items, p: Worker)
    requires Exclusive(s) && Owner(At(s, w)) && !Owner(p)
    requires items.Keys == s.items.Keys
    requires forall k :: k in items && k != At(s, w).id ==> items[k] == s.items[k]
    requires At(s, w).id in items ==> !items[At(s, w).id].status.Running?
    ensures Exclusive(Put(s.(items := items), w, p))
  {
    var t := Put(s.(items := items), w, p);
    var id := At(s, w).id;
    assert Owns(s, w, id);
    assert forall v, k :: Owns(t, v, k) <==> Owns(s, v, k) && v != w;
    forall k | k in t.items && t.items[k].status.Running? ensures Owned(t, k) {
      var v :| Owns(s, v, k);
      assert Owns(t, v, k);
    }
  }

  /** `run_item` reads and later marks unconditionally: the mark keeps ownership exclusive
      exactly when no other worker has come to own the row, or the row is gone. */
  lemma MarkIsSafeExactly(s: State, w: WorkerId, now: int)
    requires Exclusive(s) && At(s, w).SawQueued?
    ensures Exclusive(Apply(s, RunItemMark(w, now))) <==> At(s, w).id !in s.items || !Owned(s, At(s, w).id)
  {
    var id := At(s, w).id;
    var t := Apply(s, RunItemMark(w, now));
    if id !in s.items {
      BystanderMoves(s, w, Idle);
    } else if !Owned(s, id) {
      Takes(s, w, id, now, Holding(id));
    } else {
      var v :| Owns(s, v, id);
      assert Owns(t, w, id) && Owns(t, v, id) && v != w;
    }
  }

  /** A retry keeps ownership exclusive exactly when no worker still holds the row. */
  lemma RetryIsSafeExactly(s: State, id: ItemId, now: int)
    requires Exclusive(s) && Enabled(s, Retry(id, now))
    ensures Exclusive(Apply(s, Retry(id, now))) <==> !Owned(s, id)
  {
    var t := Apply(s, Retry(id, now));
    if Owned(s, id) {
      var w :| Owns(s, w, id);
      assert Owns(t, w, id);
    } else {
      RowsOnly(s, t);
    }
  }

  /** Every step but the mark of a `run_item`, or a retry, of a row somebody owns. */
  ghost predicate Safe(s: State, step: Step) {
    match step
    case RunItemMark(w, now) => !(At(s, w).SawQueued? && At(s, w).id in s.items && Owned(s, At(s, w).id))
    case Retry(id, now) => !Owned(s, id)
    case _ => true
  }

  /** These are exactly the steps under which ownership stays exclusive. */
  lemma ExclusiveStep(s: State, step: Step)
    requires Exclusive(s) && Enabled(s, step)
    ensures Exclusive(Apply(s, step)) <==> Safe(s, step)
  {
    var t := Apply(s, step);
    match step
    case Begin(w) => BystanderMoves(s, w, Choosing(0));
    case Select(w, pick) => BystanderMoves(s, w, At(t, w));
    case Update(w, now) =>
      var p := At(s, w);
      if p.id in s.items && s.items[p.id].status.Queued? {
        Takes(s, w, p.id, now, Won(p.tries, p.id));
      } else {
        BystanderMoves(s, w, Lost(p.tries));
      }
    case Reload(w) =>
      if At(s, w).id in s.items { KeepsHold(s, w); }
      else { LetsGo(s, w, s.items, Lost(At(s, w).tries)); }
    case End(w, seen, now) => LetsGo(s, w, t.items, Idle);
    case RunItemRead(w, id) => BystanderMoves(s, w, SawQueued(id));
    case RunItemAtOnce(w, id, now) => Takes(s, w, id, now, Holding(id));
    case RunItemMark(w, now) => MarkIsSafeExactly(s, w, now);
    case Retry(id, now) => RetryIsSafeExactly(s, id, now);
    case _ => RowsOnly(s, t);
  }

  /** Every state of a run is exclusive exactly if the first one is and every step is safe. */
  lemma {:induction false} ExclusiveRun(states: seq<State>, steps: seq<Step>)
    requires Run(states, steps) && Exclusive(states[0])
    ensures (forall i :: 0 <= i < |states| ==> Exclusive(states[i])) <==>
            (forall i :: 0 <= i < |steps| ==> Safe(states[i], steps[i]))
  {
    hide Exclusive, Safe;
    var k := 0;
    while k < |steps| && Safe(states[k], steps[k])
      invariant 0 <= k <= |steps|
      invariant forall i :: 0 <= i <= k ==> Exclusive(states[i])
      invariant forall i :: 0 <= i < k ==> Safe(states[i], steps[i])
    {
      assert StepAt(states, steps, k);
      ExclusiveStep(states[k], steps[k]);
      k := k + 1;
    }
    if k < |steps| {
      assert StepAt(states, steps, k);
      ExclusiveStep(states[k], steps[k]);
    }
  }

  // ---- Core runs ----------------------------------------------------------------------

  ghost predicate OwnedRowsRun(s: State) {
    forall w, id :: Owns(s, w, id) && id in s.items ==> s.items[id].status.Running?
  }

  ghost predicate RowsOk(items: Items) {
    forall id :: id in items ==> RowOk(items[id])
  }

  ghost predicate Distinct(ids: seq<ItemId>) {
    forall i, j :: 0 <= i < j < |ids| ==> ids[i] != ids[j]
  }

  /** A routed row the poller has loaded: it is as it was loaded, if it still exists. */
  predicate Pollable(s: State, loaded: Items, id: ItemId) {
    && id in s.issued && id in loaded && loaded[id].status.Routed?
    && (id in s.items ==> s.items[id] == loaded[id])
  }

  /** The poller's worklist holds distinct pollable rows, and its counts add up. */
  ghost predicate PollerOk(s: State) {
    s.poller.Polling? ==>
      && Balanced(s.poller.report)
      && Distinct(s.poller.todo)
      && (forall id :: id in s.poller.todo ==> Pollable(s, s.poller.loaded, id))
  }

  ghost predicate Orderly(s: State) {
    Exclusive(s) && OwnedRowsRun(s) && RowsOk(s.items) && PollerOk(s)
  }

  lemma OwnedRowsStep(s: State, step: Step)
    requires Orderly(s) && Core(step) && Enabled(s, step)
    ensures OwnedRowsRun(Apply(s, step))
  {
    var t := Apply(s, step);
    forall w, id | Owns(t, w, id) && id in t.items ensures t.items[id].status.Running? {
      if Owns(s, w, id) {
        match step
        case End(v, _, _) => assert Owns(s, v, At(s, v).id);
        case Report(v, _) => assert Owns(s, v, At(s, v).id);
        case PollNext(_, _) => assert Pollable(s, s.poller.loaded, s.poller.todo[0]);
        case _ =>
      }
    }
  }

  lemma RowsOkStep(s: State, step: Step)
    requires Orderly(s) && Core(step) && Enabled(s, step)
    ensures RowsOk(Apply(s, step).items)
  {
    match step
    case Report(w, _) => assert Owns(s, w, At(s, w).id);
    case End(w, _, _) => assert Owns(s, w, At(s, w).id);
    case PollNext(answer, now) =>
      var id := s.poller.todo[0];
      assert Pollable(s, s.poller.loaded, id);
      if id in s.items { VerdictMatchesRow(s.items[id], answer, now); }
    case _ =>
  }

  /** Nobody but the poller writes a row it has loaded as routed: its copies stay current. */
  lemma RoutedStays(s: State, step: Step, loaded: Items, id: ItemId)
    requires Orderly(s) && Core(step) && Enabled(s, step)
    requires Pollable(s, loaded, id) && (step.PollNext? ==> id != s.poller.todo[0])
    ensures Pollable(Apply(s, step), loaded, id)
  {
    match step
    case Report(w, _) => assert Owns(s, w, At(s, w).id);
    case End(w, _, _) => assert Owns(s, w, At(s, w).id);
    case _ =>
  }

  lemma DistinctTail(ids: seq<ItemId>)
    requires Distinct(ids) && ids != []
    ensures Distinct(ids[1..]) && ids[0] !in ids[1..]
  {
  }

  lemma PollerStep(s: State, step: Step)
    requires Orderly(s) && Core(step) && Enabled(s, step)
    ensures PollerOk(Apply(s, step))
  {
    var t := Apply(s, step);
    if step.PollNext? { DistinctTail(s.poller.todo); }
    if t.poller.Polling? && s.poller.Polling? {
      forall id | id in t.poller.todo ensures Pollable(t, t.poller.loaded, id) {
        RoutedStays(s, step, s.poller.loaded, id);
      }
    } else if step.PollBegin? {
      assert forall id :: id in step.listing ==> Pollable(t, s.items, id);
    }
    hide Distinct, Pollable, Exclusive, OwnedRowsRun, RowsOk;
  }

  /** Every core step keeps the queue orderly. */
  lemma OrderlyStep(s: State, step: Step)
    requires Orderly(s) && Core(step) && Enabled(s, step)
    ensures Orderly(Apply(s, step))
  {
    ExclusiveStep(s, step);
    OwnedRowsStep(s, step);
    RowsOkStep(s, step);
    PollerStep(s, step);
  }

  /** Every state of every core run is orderly: each running item has exactly one owner, an
      owner holds one item, and the stored fields agree with the status. */
  lemma {:induction false} OrderlyRun(states: seq<State>, steps: seq<Step>)
    requires Run(states, steps) && states[0] == START
    requires forall i :: 0 <= i < |steps| ==> Core(steps[i])
    ensures forall i :: 0 <= i < |states| ==> Orderly(states[i])
  {
    var k := 0;
    while k < |steps|
      invariant 0 <= k <= |steps|
      invariant forall i :: 0 <= i <= k ==> Orderly(states[i])
    {
      assert StepAt(states, steps, k);
      OrderlyStep(states[k], steps[k]);
      k := k + 1;
    }
  }

  /** Only the owner takes an item out of running, short of deleting its file. */
  lemma OnlyOwnerEndsRun(s: State, step: Step, id: ItemId)
    requires Orderly(s) && Core(step) && Enabled(s, step)
    requires id in s.items && s.items[id].status.Running?
    requires var t := Apply(s, step); id in t.items && !t.items[id].status.Running?
    ensures step.End? && Owns(s, step.w, id)
  {
    if step.PollNext? { PollsRouted(s); }
  }

  lemma PollsRouted(s: State)
    requires Orderly(s) && s.poller.Polling? && s.poller.todo != []
    ensures s.poller.todo[0] in s.items ==> s.items[s.poller.todo[0]].status.Routed?
  {
    assert Pollable(s, s.poller.loaded, s.poller.todo[0]);
  }

  lemma TerminalStep(s: State, step: Step, id: ItemId)
    requires Orderly(s) && Core(step) && Enabled(s, step)
    requires id in s.items && Terminal(s.items[id].status)
    ensures var t := Apply(s, step); id in t.items ==> t.items[id] == s.items[id]
    ensures id in Apply(s, step).issued
  {
    match step
    case End(w, _, _) => assert Owns(s, w, At(s, w).id);
    case Report(w, _) => assert Owns(s, w, At(s, w).id);
    case PollNext(_, _) => PollsRouted(s);
    case _ =>
  }

  lemma GoneStep(s: State, step: Step, id: ItemId)
    requires Enabled(s, step) && id !in s.items && id in s.issued
    ensures id !in Apply(s, step).items && id in Apply(s, step).issued
  {
  }

  /** A terminal row is never written again: later it is the same, or deleted for good. */
  lemma {:induction false} TerminalForever(states: seq<State>, steps: seq<Step>, i: nat, j: nat, id: ItemId)
    requires Run(states, steps) && states[0] == START
    requires forall k :: 0 <= k < |steps| ==> Core(steps[k])
    requires i <= j < |states|
    requires id in states[i].items && Terminal(states[i].items[id].status)
    ensures id in states[j].issued
    ensures id in states[j].items ==> states[j].items[id] == states[i].items[id]
    decreases j
  {
    OrderlyRun(states, steps);
    if i < j {
      TerminalForever(states, steps, i, j - 1, id);
      assert StepAt(states, steps, j - 1);
      if id in states[j - 1].items { TerminalStep(states[j - 1], steps[j - 1], id); }
      else { GoneStep(states[j - 1], steps[j - 1], id); }
    }
  }

  // ---- Giving up ----------------------------------------------------------------------

  predicate ByWorker(step: Step, w: WorkerId) {
    match step
    case Begin(v) => v == w
    case Select(v, _) => v == w
    case Update(v, _) => v == w
    case Reload(v) => v == w
    case Report(v, _) => v == w
    case End(v, _, _) => v == w
    case RunItemRead(v, _) => v == w
    case RunItemMark(v, _) => v == w
    case RunItemAtOnce(v, _, _) => v == w
    case _ => false
  }

  /** Some row changes its status or disappears. */
  ghost predicate Shifts(s: State, t: State) {
    exists id :: id in s.items && (id !in t.items || t.items[id].status != s.items[id].status)
  }

  /** How many steps from `i` to `j` were others shifting a row. */
  ghost function Interference(states: seq<State>, steps: seq<Step>, w: WorkerId, i: nat, j: nat): nat
    requires i <= j < |states| == |steps| + 1
    decreases j
  {
    if i == j then 0
    else Interference(states, steps, w, i, j - 1) +
         if !ByWorker(steps[j - 1], w) && Shifts(states[j - 1], states[j]) then 1 else 0
  }

  predicate Claiming(p: Worker) {
    p.Choosing? || p.Chosen? || p.Won?
  }

  /** The lost attempts so far, counting one that is already doomed. */
  function Losses(s: State, p: Worker): nat
    requires Claiming(p)
  {
    match p
    case Choosing(t) => t
    case Chosen(t, id) => if id in s.items && s.items[id].status.Queued? then t else t + 1
    case Won(t, id) => if id in s.items then t else t + 1
  }

  lemma OthersCostOne(s: State, step: Step, w: WorkerId)
    requires Enabled(s, step) && !ByWorker(step, w) && Claiming(At(s, w))
    ensures At(Apply(s, step), w) == At(s, w)
    ensures Losses(Apply(s, step), At(s, w)) <= Losses(s, At(s, w)) + if Shifts(s, Apply(s, step)) then 1 else 0
  {
    var t, p := Apply(s, step), At(s, w);
    if !p.Choosing? && p.id in s.items && (p.id !in t.items || t.items[p.id].status != s.items[p.id].status) {
      assert Shifts(s, t);
    }
  }

  lemma OwnStepsCostNothing(s: State, step: Step, w: WorkerId)
    requires Enabled(s, step) && ByWorker(step, w) && Claiming(At(s, w))
    ensures var p := At(Apply(s, step), w);
            if Claiming(p) then Losses(Apply(s, step), p) <= Losses(s, At(s, w))
            else p.Idle? && !step.Select? ==> Losses(s, At(s, w)) >= CLAIM_ATTEMPTS
  {
  }

  lemma {:induction false} LossesAreInterference(states: seq<State>, steps: seq<Step>, w: WorkerId, i: nat, j: nat)
    requires Run(states, steps) && i <= j < |states|
    requires At(states[i], w) == Choosing(0)
    requires forall k :: i <= k <= j ==> Claiming(At(states[k], w))
    ensures Losses(states[j], At(states[j], w)) <= Interference(states, steps, w, i, j)
    decreases j
  {
    if i < j {
      LossesAreInterference(states, steps, w, i, j - 1);
      assert StepAt(states, steps, j - 1);
      hide Enabled, Apply, Losses, Claiming, Shifts;
      if ByWorker(steps[j - 1], w) { OwnStepsCostNothing(states[j - 1], steps[j - 1], w); }
      else { OthersCostOne(states[j - 1], steps[j - 1], w); }
    }
  }

  /** A claim that ends without a claim, and not for want of queued items, has seen at least
      sixteen steps of others that changed a row's status or deleted it. */
  lemma GivesUpAfterSixteen(states: seq<State>, steps: seq<Step>, w: WorkerId, i: nat, j: nat)
    requires Run(states, steps) && i <= j < |steps|
    requires At(states[i], w) == Choosing(0)
    requires forall k :: i <= k <= j ==> Claiming(At(states[k], w))
    requires At(states[j + 1], w).Idle? && !steps[j].Select?
    ensures Interference(states, steps, w, i, j) >= 16
  {
    LossesAreInterference(states, steps, w, i, j);
    assert StepAt(states, steps, j);
    if !ByWorker(steps[j], w) { OthersCostOne(states[j], steps[j], w); }
    OwnStepsCostNothing(states[j], steps[j], w);
  }

  /** What a worker's own steps do: the UPDATE wins exactly a row that is still queued, the reload
      keeps exactly a row that still exists and is a lost attempt otherwise, and the end of a
      run writes its decision into the row and lets go of it. */
  lemma WorkerStepsMean(s: State, w: WorkerId, id: ItemId, tries: nat, now: int, seen: Surroundings)
    ensures At(s, w) == Chosen(tries, id) ==>
              var t := Apply(s, Update(w, now));
              if id in s.items && s.items[id].status.Queued?
              then At(t, w) == Won(tries, id) && t.items == s.items[id := Claimed(s.items[id], now)]
              else At(t, w) == Lost(tries) && t.items == s.items
    ensures At(s, w) == Won(tries, id) ==>
              var t := Apply(s, Reload(w));
              At(t, w) == (if id in s.items then Holding(id) else Lost(tries)) && t.items == s.items
    ensures At(s, w) == Holding(id) ==>
              var t := Apply(s, End(w, seen, now));
              && At(t, w) == Idle
              && t.items == if id in s.items then s.items[id := Decided(s.items[id], Decide(seen), now)] else s.items
  {
    hide Decide, Decided;
  }

  /** The claim loop makes sixteen attempts: the sixteenth loss in a row ends it. */
  lemma SixteenthLossEnds(tries: nat)
    ensures Lost(tries) == if tries < 15 then Choosing(tries + 1) else Idle
  {
  }

  // ---- What the operator's endpoints do ------------------------------------------------

  /** Cancelling ends a queued or running row at once; retrying puts a row that has ended back
      at the end of the queue, as if new, whatever it was. */
  lemma CancelAndRetryMean(s: State, id: ItemId, now: int)
    ensures Enabled(s, Cancel(id, now)) ==>
              Apply(s, Cancel(id, now)) ==
              s.(items := s.items[id := s.items[id].(status := Cancelled, finishedAt := Some(now))])
    ensures Enabled(s, Cancel(id, now)) ==> Enabled(Apply(s, Cancel(id, now)), Retry(id, now))
    ensures Enabled(s, Retry(id, now)) ==>
              Apply(s, Retry(id, now)) == s.(items := s.items[id := Enqueued(now).(job := s.items[id].job)])
  {
  }

  // ---- What the operator's endpoints can break -----------------------------------------

  lemma Extend(states: seq<State>, steps: seq<Step>, step: Step) returns (next: seq<State>)
    requires Run(states, steps) && Enabled(states[|states| - 1], step)
    ensures next == states + [Apply(states[|states| - 1], step)]
    ensures Run(next, steps + [step])
  {
    next := states + [Apply(states[|states| - 1], step)];
    var longer := steps + [step];
    forall i: nat | i < |longer| ensures StepAt(next, longer, i) {
      if i < |steps| { assert StepAt(states, steps, i); }
    }
  }

  /** A run in which an item is queued, claimed and handed to a provider. */
  lemma HandsItemOver(seen: Surroundings, job: nat) returns (states: seq<State>, steps: seq<Step>)
    requires Decide(seen) == Route(Some(job))
    ensures Run(states, steps) && states[0] == START && forall i :: 0 <= i < |steps| ==> Core(steps[i])
    ensures var last := states[|states| - 1];
            last.items == map[0 := Item(Routed, 5, Some(6), None, 0, Some(job))] && last.poller.Resting?
  {
    hide Decide;
    states, steps := [START], [];
    states := Extend(states, steps, Enqueue(0, 5));
    steps := steps + [Enqueue(0, 5)];
    states := Extend(states, steps, Begin(1));
    steps := steps + [Begin(1)];
    states := Extend(states, steps, Select(1, Some(0)));
    steps := steps + [Select(1, Some(0))];
    states := Extend(states, steps, Update(1, 6));
    steps := steps + [Update(1, 6)];
    states := Extend(states, steps, Reload(1));
    steps := steps + [Reload(1)];
    states := Extend(states, steps, End(1, seen, 7));
    steps := steps + [End(1, seen, 7)];
  }

  /** It goes on: once the provider says the job is done, the poller completes the item. */
  lemma RoutedItemCompletes(seen: Surroundings, job: nat) returns (states: seq<State>, steps: seq<Step>)
    requires Decide(seen) == Route(Some(job))
    ensures Run(states, steps) && states[0] == START && forall i :: 0 <= i < |steps| ==> Core(steps[i])
    ensures var last := states[|states| - 1];
            && 0 in last.items && last.items[0].status.Completed? && last.items[0].progress == 100
            && last.poller.Polling? && last.poller.todo == [] && last.poller.report == PollReport(1, 1, 0, 0, 0)
  {
    hide Decide, Run;
    states, steps := HandsItemOver(seen, job);
    states := Extend(states, steps, PollBegin([0]));
    steps := steps + [PollBegin([0])];
    states := Extend(states, steps, PollNext(JobDone, 8));
    steps := steps + [PollNext(JobDone, 8)];
  }

  /** A run in which two `run_item` calls on one queued row end up owning it together. */
  lemma RunItemRace() returns (states: seq<State>, steps: seq<Step>)
    ensures Run(states, steps) && states[0] == START
    ensures var last := states[|states| - 1]; Owns(last, 1, 0) && Owns(last, 2, 0)
  {
    steps := [];
    states := [START];
    states := Extend(states, steps, Enqueue(0, 5));
    steps := steps + [Enqueue(0, 5)];
    states := Extend(states, steps, RunItemRead(1, 0));
    steps := steps + [RunItemRead(1, 0)];
    states := Extend(states, steps, RunItemRead(2, 0));
    steps := steps + [RunItemRead(2, 0)];
    states := Extend(states, steps, RunItemMark(1, 6));
    steps := steps + [RunItemMark(1, 6)];
    states := Extend(states, steps, RunItemMark(2, 7));
    steps := steps + [RunItemMark(2, 7)];
  }

  /** A run in which a cancelled and retried row is claimed while its first worker still
      holds it; that worker then completes the row under the second one. */
  lemma CancelRetryRace(seen: Surroundings) returns (states: seq<State>, steps: seq<Step>, i: nat)
    requires Decide(seen) == Finish
    ensures Run(states, steps) && states[0] == START
    ensures i < |states| && Owns(states[i], 1, 0) && Owns(states[i], 2, 0)
    ensures var last := states[|states| - 1];
            0 in last.items && last.items[0].status.Completed? && Owns(last, 2, 0)
  {
    states, steps := [START], [];
    states := Extend(states, steps, Enqueue(0, 5));
    steps := steps + [Enqueue(0, 5)];
    states := Extend(states, steps, Begin(1));
    steps := steps + [Begin(1)];
    states := Extend(states, steps, Select(1, Some(0)));
    steps := steps + [Select(1, Some(0))];
    states := Extend(states, steps, Update(1, 6));
    steps := steps + [Update(1, 6)];
    states := Extend(states, steps, Reload(1));
    steps := steps + [Reload(1)];
    states := Extend(states, steps, Cancel(0, 7));
    steps := steps + [Cancel(0, 7)];
    states := Extend(states, steps, Retry(0, 8));
    steps := steps + [Retry(0, 8)];
    states := Extend(states, steps, Begin(2));
    steps := steps + [Begin(2)];
    states := Extend(states, steps, Select(2, Some(0)));
    steps := steps + [Select(2, Some(0))];
    states := Extend(states, steps, Update(2, 9));
    steps := steps + [Update(2, 9)];
    i := 10;
    assert Owns(states[i], 1, 0) && Owns(states[i], 2, 0);
    states := Extend(states, steps, End(1, seen, 10));
    steps := steps + [End(1, seen, 10)];
  }
}
