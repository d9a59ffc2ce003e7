/** The reconnecting loop of `stream_events`, over any finite run of connection attempts. */
module SseStream {
  import opened Options
  import opened Sse

  /** How a connection that was accepted ends: at end of stream, by an error that is
      retried, or by cancellation. */
  datatype Ending = Closed | Broken | Stopped

  /** One pass of the outer loop. `Refused` is a 4xx answer; `Failed` any other failure to
      connect; `Aborted` a cancellation before the answer. */
  datatype Attempt = Connected(lines: seq<string>, ending: Ending) | Refused | Failed | Aborted

  /** What the caller sees: events, waits in seconds, and the exception that ends it all. */
  datatype Output = Yield(event: SseEvent) | Wait(seconds: nat) | Raise

  const BACKOFF: seq<nat> := [1, 2, 4, 8, 16, 30]

  const RECONNECTING := SseEvent("__auditarr_reconnecting__", Some("RECONNECTING"), None, None)

  predicate Fatal(a: Attempt) {
    a.Refused? || a.Aborted? || (a.Connected? && a.ending.Stopped?)
  }

  function Yields(events: seq<SseEvent>): seq<Output> {
    if events == [] then [] else [Yield(events[0])] + Yields(events[1..])
  }

  // ---- What a run looks like ----------------------------------------------------------

  /** The attempts before `k` include an accepted connection. */
  predicate Before(attempts: seq<Attempt>, k: nat)
    requires k <= |attempts|
  {
    exists i :: 0 <= i < k && attempts[i].Connected?
  }

  /** The attempts since the last accepted connection, or since the start; none when attempt
      `k` itself was accepted. */
  function Streak(attempts: seq<Attempt>, k: nat): (n: nat)
    requires k < |attempts|
    ensures n <= k
    ensures attempts[k].Connected? ==> n == 0
    ensures forall i :: k - n < i <= k ==> !attempts[i].Connected?
    ensures n < k ==> attempts[k - n].Connected?
  {
    if attempts[k].Connected? || k == 0 then 0 else 1 + Streak(attempts, k - 1)
  }

  function WaitAfter(streak: nat): nat {
    BACKOFF[if streak < |BACKOFF| then streak else |BACKOFF| - 1]
  }

  /** What an attempt contributes: when it reconnects the marker, then the events of its own
      lines, then the exception or the wait. */
  function PartOf(a: Attempt, again: bool, streak: nat): seq<Output> {
    (if a.Connected?
     then (if again then [Yield(RECONNECTING)] else []) + Yields(Events([], a.lines))
     else [])
    + [if Fatal(a) then Raise else Wait(WaitAfter(streak))]
  }

  function Part(attempts: seq<Attempt>, k: nat): seq<Output>
    requires k < |attempts|
  {
    PartOf(attempts[k], Before(attempts, k), Streak(attempts, k))
  }

  /** The parts of the first `k` attempts in order. */
  function Transcript(attempts: seq<Attempt>, k: nat): seq<Output>
    requires k <= |attempts|
  {
    if k == 0 then [] else Transcript(attempts, k - 1) + Part(attempts, k - 1)
  }

  /** How many attempts are made, from the `k`th on: up to and including the first fatal one. */
  function Reached(attempts: seq<Attempt>, k: nat): (r: nat)
    requires k <= |attempts|
    ensures k <= r <= |attempts|
    ensures forall i :: k <= i < r - 1 ==> !Fatal(attempts[i])
    ensures r < |attempts| ==> k < r && Fatal(attempts[r - 1])
    decreases |attempts| - k
  {
    if k == |attempts| then k else if Fatal(attempts[k]) then k + 1 else Reached(attempts, k + 1)
  }

  /** `stream_events`. */
  method StreamEvents(attempts: seq<Attempt>) returns (out: seq<Output>)
    ensures out == Transcript(attempts, Reached(attempts, 0))
  {
    hide PartOf;
    out := [];
    var backoff := 0;
    var first := true;
    var k := 0;
    while k < |attempts|
      invariant 0 <= k <= |attempts|
      invariant Reached(attempts, k) == Reached(attempts, 0)
      invariant out == Transcript(attempts, k)
      invariant first <==> !Before(attempts, k)
      invariant k == 0 ==> backoff == 0
      invariant k > 0 ==> backoff == Streak(attempts, k - 1) + 1
    {
      var a := attempts[k];
      if a.Connected? { backoff := 0; }
      var part := OnePass(a, first, backoff);
      out := out + part;
      if Fatal(a) { return; }
      first := first && !a.Connected?;
      backoff := backoff + 1;
      k := k + 1;
    }
  }

  /** One pass of the outer loop. */
  method OnePass(a: Attempt, first: bool, backoff: nat) returns (out: seq<Output>)
    ensures out == PartOf(a, !first, backoff)
  {
    out := [];
    if a.Connected? {
      if !first { out := out + [Yield(RECONNECTING)]; }
      var events := ReadEvents(a.lines);
      out := out + Yields(events);
    }
    if Fatal(a) { return out + [Raise]; }
    return out + [Wait(BACKOFF[if backoff < |BACKOFF| then backoff else |BACKOFF| - 1])];
  }

  // ---- What that gives ----------------------------------------------------------------

  /** The stream ends with an exception exactly if some attempt is refused with a 4xx, or
      cancelled before or during its connection; and the exception is the last thing. */
  lemma {:induction false} RaisesExactly(attempts: seq<Attempt>)
    ensures var out := Transcript(attempts, Reached(attempts, 0));
            && (Raise in out <==>
                  exists i :: 0 <= i < |attempts| &&
                    match attempts[i]
                    case Refused => true
                    case Aborted => true
                    case Failed => false
                    case Connected(_, ending) => ending.Stopped?)
            && (forall k :: 0 <= k < |out| - 1 ==> !out[k].Raise?)
  {
    var r := Reached(attempts, 0);
    WaitsOnly(attempts, if r > 0 && Fatal(attempts[r - 1]) then r - 1 else r);
    if r > 0 && Fatal(attempts[r - 1]) {
      hide Transcript;
      FatalPartEnds(attempts, r - 1);
      TranscriptStep(attempts, r - 1);
    } else if i :| 0 <= i < |attempts| && Fatal(attempts[i]) {
      assert false;
    }
  }

  lemma TranscriptStep(attempts: seq<Attempt>, k: nat)
    requires k < |attempts|
    ensures Transcript(attempts, k + 1) == Transcript(attempts, k) + Part(attempts, k)
  {
  }

  lemma FatalPartEnds(attempts: seq<Attempt>, k: nat)
    requires k < |attempts|
    ensures var part := Part(attempts, k);
            && part != [] && (part[|part| - 1] == Raise <==> Fatal(attempts[k]))
            && forall m :: 0 <= m < |part| - 1 ==> !part[m].Raise?
  {
    if attempts[k].Connected? {
      YieldsAreEvents(Events([], attempts[k].lines));
    }
  }

  lemma {:induction false} YieldsAreEvents(events: seq<SseEvent>)
    ensures forall m :: 0 <= m < |Yields(events)| ==> Yields(events)[m].Yield?
    decreases |events|
  {
    if events != [] { YieldsAreEvents(events[1..]); }
  }

  lemma {:induction false} WaitsOnly(attempts: seq<Attempt>, k: nat)
    requires k <= |attempts| && forall i :: 0 <= i < k ==> !Fatal(attempts[i])
    ensures forall m :: 0 <= m < |Transcript(attempts, k)| ==> !Transcript(attempts, k)[m].Raise?
  {
    if k > 0 {
      WaitsOnly(attempts, k - 1);
      FatalPartEnds(attempts, k - 1);
      hide Part, Fatal;
    }
  }

  function PowerOfTwo(n: nat): nat {
    if n == 0 then 1 else 2 * PowerOfTwo(n - 1)
  }

  lemma {:induction false} PowersGrow(n: nat)
    requires n >= 5
    ensures PowerOfTwo(n) >= 32
  {
    if n > 5 { PowersGrow(n - 1); }
    else { assert PowerOfTwo(3) == 8 && PowerOfTwo(5) == 4 * PowerOfTwo(3); }
  }

  /** The wait doubles from one second with every failure, up to thirty. */
  lemma WaitIsCappedDoubling(streak: nat)
    ensures WaitAfter(streak) == if PowerOfTwo(streak) < 30 then PowerOfTwo(streak) else 30
  {
    if streak >= 5 { PowersGrow(streak); }
    else {
      assert PowerOfTwo(0) == 1 && PowerOfTwo(1) == 2 && PowerOfTwo(2) == 4;
      assert PowerOfTwo(3) == 2 * PowerOfTwo(2) && PowerOfTwo(4) == 2 * PowerOfTwo(3);
    }
  }

  /** Within a streak of failures the waits follow the table and never get shorter. */
  lemma WaitsNeverShrink(attempts: seq<Attempt>, j: nat, k: nat)
    requires j < k < |attempts|
    requires forall i :: j < i <= k ==> !attempts[i].Connected?
    ensures Streak(attempts, k) == Streak(attempts, j) + (k - j)
    ensures WaitAfter(Streak(attempts, j)) <= WaitAfter(Streak(attempts, k))
  {
    if j + 1 < k { WaitsNeverShrink(attempts, j, k - 1); }
  }

  /** The counter as documented: only a connection that brings an event restarts it. */
  function DocumentedStreak(attempts: seq<Attempt>, k: nat): nat
    requires k < |attempts|
  {
    if k == 0 || (attempts[k].Connected? && Events([], attempts[k].lines) != []) then 0
    else 1 + DocumentedStreak(attempts, k - 1)
  }

  /** The counter is the documented one exactly if it has run since the start or since a
      connection that brought an event. */
  lemma {:induction false} ResetsAsDocumentedExactly(attempts: seq<Attempt>, k: nat)
    requires k < |attempts|
    ensures var c := k - Streak(attempts, k);
            DocumentedStreak(attempts, k) == Streak(attempts, k) <==>
            c == 0 || Events([], attempts[c].lines) != []
    ensures Streak(attempts, k) <= DocumentedStreak(attempts, k)
    ensures WaitAfter(Streak(attempts, k)) <= WaitAfter(DocumentedStreak(attempts, k))
  {
    if k > 0 && !attempts[k].Connected? { ResetsAsDocumentedExactly(attempts, k - 1); }
  }

  /** After two failures a connection that brings nothing is followed by a wait of one second,
      where four are documented. */
  lemma QuietConnectionResets(attempts: seq<Attempt>)
    requires attempts == [Failed, Failed, Connected([], Closed)]
    ensures WaitAfter(Streak(attempts, 2)) == 1 && WaitAfter(DocumentedStreak(attempts, 2)) == 4
  {
    assert DocumentedStreak(attempts, 1) == 1 + DocumentedStreak(attempts, 0);
  }

  /** The connection's events come from its own lines: whatever went before on other
      connections, and an unfinished block, leave no trace. */
  lemma {:induction false} UnfinishedBlockIsDropped(buffer: seq<string>, tail: seq<string>)
    requires forall i :: 0 <= i < |tail| ==> tail[i] != []
    ensures Events(buffer, tail) == []
    decreases |tail|
  {
    if tail != [] { UnfinishedBlockIsDropped(buffer + [tail[0]], tail[1..]); }
  }

  /** Lines up to and including an empty one can be read on their own. */
  lemma {:induction false} EmptyLineCuts(buffer: seq<string>, a: seq<string>, b: seq<string>)
    ensures Events(buffer, a + [[]] + b) == Events(buffer, a + [[]]) + Events([], b)
    decreases |a|
  {
    if a == [] {
      assert a + [[]] + b == [[]] + b && a + [[]] == [[]];
      assert ([[]] + b)[1..] == b;
      var blank: seq<string> := [[]];
      assert blank[1..] == [];
    } else {
      assert (a + [[]] + b)[1..] == a[1..] + [[]] + b;
      assert (a + [[]])[1..] == a[1..] + [[]];
      if a[0] != [] { EmptyLineCuts(buffer + [a[0]], a[1..], b); }
      else { EmptyLineCuts([], a[1..], b); }
    }
  }

  predicate IsReconnecting(o: Output) {
    o.Yield? && o.event.kind == Some("RECONNECTING")
  }

  lemma {:induction false} YieldsAt(events: seq<SseEvent>, m: nat)
    requires m < |events|
    ensures |Yields(events)| == |events| && Yields(events)[m] == Yield(events[m])
    decreases |events|
  {
    if |events| > 1 { YieldsAt(events[1..], if m == 0 then 0 else m - 1); }
  }

  /** Where the marker stands: first in the part of every successful connection after the
      first one, at the server's own events of that type, and nowhere else. */
  lemma MarkerExactly(attempts: seq<Attempt>, k: nat, m: nat)
    requires k < |attempts| && m < |Part(attempts, k)|
    ensures IsReconnecting(Part(attempts, k)[m]) <==>
            && attempts[k].Connected?
            && (var events, lead := Events([], attempts[k].lines), if Before(attempts, k) then 1 else 0;
                m < lead || (m < lead + |events| && events[m - lead].kind == Some("RECONNECTING")))
  {
    if attempts[k].Connected? {
      var events := Events([], attempts[k].lines);
      var lead := if Before(attempts, k) then 1 else 0;
      if events != [] { YieldsAt(events, 0); }
      assert |Part(attempts, k)| == lead + |events| + 1;
      if lead <= m < lead + |events| {
        YieldsAt(events, m - lead);
        assert Part(attempts, k)[m] == Yield(events[m - lead]);
      }
    }
  }

  /** A reconnect attempt is marked, as documented for every one, exactly if it is accepted. */
  lemma AttemptIsMarkedExactly(attempts: seq<Attempt>, k: nat)
    requires k < |attempts| && Before(attempts, k)
    ensures Part(attempts, k)[0] == Yield(RECONNECTING) <==> attempts[k].Connected?
  {
  }

  /** A failed reconnect attempt is followed by its wait, without a marker. */
  lemma FailedAttemptIsUnmarked(attempts: seq<Attempt>)
    requires attempts == [Connected([], Closed), Failed]
    ensures Before(attempts, 1) && Part(attempts, 1) == [Wait(2)]
  {
    assert attempts[0].Connected?;
    assert Streak(attempts, 1) == 1 + Streak(attempts, 0);
  }

  /** The synthetic marker is told apart from the server's events exactly if none of these
      has its type. */
  lemma MarkerIsUnmistakableExactly(attempts: seq<Attempt>, k: nat)
    requires k < |attempts| && attempts[k].Connected?
    ensures (forall m :: 0 <= m < |Part(attempts, k)| && IsReconnecting(Part(attempts, k)[m]) ==>
                         m == 0 && Before(attempts, k)) <==>
            (forall e :: e in Events([], attempts[k].lines) ==> e.kind != Some("RECONNECTING"))
  {
    var part, events := Part(attempts, k), Events([], attempts[k].lines);
    var lead := if Before(attempts, k) then 1 else 0;
    if events != [] { YieldsAt(events, 0); }
    assert |part| == lead + |events| + 1;
    hide Part;
    forall m | 0 <= m < |part|
      ensures IsReconnecting(part[m]) <==>
              m < lead || (m < lead + |events| && events[m - lead].kind == Some("RECONNECTING"))
    {
      MarkerExactly(attempts, k, m);
    }
    if i :| 0 <= i < |events| && events[i].kind == Some("RECONNECTING") {
      assert IsReconnecting(part[lead + i]);
    }
  }

  /** A server's own event of that type comes through unchanged. */
  lemma ServerCanSendMarker(e: SseEvent)
    requires Printable(e) && e.kind == Some("RECONNECTING")
    ensures Part([Connected(EventLines(e) + [[]], Closed)], 0) == [Yield(e), Wait(1)]
  {
    var b := Block(EventLines(e), Some(e));
    EventHasBlock(e);
    BlockYields(b, []);
    assert b.lines + [[]] + [] == EventLines(e) + [[]];
    assert Events([], EventLines(e) + [[]]) == [e];
    assert Yields([e]) == [Yield(e)];
  }
}
