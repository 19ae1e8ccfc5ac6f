/** app/api/routes/comparisons.py: the stream that polls a run's row and reports its statuses. */
module RunStream {
  import opened Wrappers
  import opened Orchestration
  import opened Text

  datatype Event =
    | Preamble
    | StatusEvent(status: Status, framework: Option<string>, error: Option<string>)
    | Vanished
    | DoneEvent
    | Heartbeat

  const TICKS := 300

  function Report(r: Row): Event { StatusEvent(r.status, r.framework, r.error) }

  /** What the stream sends from tick `k` on, when `last` is the status it sent last and the polls find
      `snaps`. A heartbeat goes out at every fifth tick. */
  function Events(snaps: seq<Option<Row>>, k: nat, last: Option<Status>): seq<Event>
    decreases |snaps| - k
  {
    if k >= |snaps| then []
    else match snaps[k]
      case None => [Vanished]
      case Some(r) =>
        if Terminal(r.status) then News(r, last) + [DoneEvent]
        else News(r, last) + Beat(k) + Events(snaps, k + 1, Some(r.status))
  }

  function Beat(k: nat): seq<Event> { if k > 0 && k % 5 == 0 then [Heartbeat] else [] }

  /** `stream_run.gen`: one poll a tick. */
  method Gen(snaps: seq<Option<Row>>) returns (events: seq<Event>)
    requires |snaps| == TICKS
    ensures events == [Preamble] + Events(snaps, 0, None)
  {
    events := [Preamble];
    var last: Option<Status> := None;
    var lastHeartbeat := 0;
    ghost var whole := [Preamble] + Events(snaps, 0, None);
    for tick := 0 to TICKS
      invariant lastHeartbeat == LastBeat(tick)
      invariant whole == events + Events(snaps, tick, last)
    {
      hide Events, Terminal, News, Beat, LastBeat;
      OneTick(snaps, tick, last, events);
      if snaps[tick].None? {
        return events + [Vanished];
      }
      var row := snaps[tick].value;
      NewsAdded(events, row, last);
      if Some(row.status) != last {
        events := events + [Report(row)];
        last := Some(row.status);
      }
      if Terminal(row.status) {
        return events + [DoneEvent];
      }
      BeatAdded(events, tick);
      if tick - lastHeartbeat >= 5 {
        events := events + [Heartbeat];
        lastHeartbeat := tick;
      }
    }
    NoMore(snaps, last);
    Neutral(events);
  }

  /** The last tick before `k` that sent a heartbeat, 0 before the first. */
  function LastBeat(k: nat): nat { if k == 0 then 0 else (k - 1) / 5 * 5 }

  lemma BeatAdded(sent: seq<Event>, k: nat)
    ensures sent + Beat(k) == if k - LastBeat(k) >= 5 then sent + [Heartbeat] else sent
    ensures LastBeat(k + 1) == if k - LastBeat(k) >= 5 then k else LastBeat(k)
  {
    Neutral(sent);
  }

  lemma NewsAdded(sent: seq<Event>, r: Row, last: Option<Status>)
    ensures sent + News(r, last) == if Some(r.status) != last then sent + [Report(r)] else sent
  {
    Neutral(sent);
  }

  lemma NoMore(snaps: seq<Option<Row>>, last: Option<Status>)
    ensures Events(snaps, |snaps|, last) == []
  {
  }

  function News(r: Row, last: Option<Status>): seq<Event> { if Some(r.status) != last then [Report(r)] else [] }

  lemma OneTick(snaps: seq<Option<Row>>, k: nat, last: Option<Status>, sent: seq<Event>)
    requires k < |snaps|
    ensures snaps[k].None? ==> Events(snaps, k, last) == [Vanished]
    ensures (snaps[k].Some? && Terminal(snaps[k].value.status) ==>
      sent + Events(snaps, k, last) == (sent + News(snaps[k].value, last)) + [DoneEvent])
    ensures (snaps[k].Some? && !Terminal(snaps[k].value.status) ==>
      sent + Events(snaps, k, last)
      == sent + News(snaps[k].value, last) + Beat(k) + Events(snaps, k + 1, Some(snaps[k].value.status)))
  {
    if snaps[k].Some? {
      var n, b, rest := News(snaps[k].value, last), Beat(k), Events(snaps, k + 1, Some(snaps[k].value.status));
      Assoc(n, b, rest);
      Assoc(sent, n, b + rest);
      Assoc(sent + n, b, rest);
      Assoc(sent, n, [DoneEvent]);
    }
  }

  // ----- what a listener learns -----

  /** What the polls of one stream find: each read is later than the ones before it. */
  ghost predicate Polls(snaps: seq<Option<Row>>) {
    forall i, j | 0 <= i < j < |snaps| :: Later(snaps[i], snaps[j])
  }

  function Told(e: Event): seq<Status> { if e.StatusEvent? then [e.status] else [] }

  /** The statuses a stream sends, in order. */
  function Statuses(events: seq<Event>): seq<Status> {
    if events == [] then [] else Told(events[0]) + Statuses(events[1..])
  }

  /** Each status is further on than the one before, and the first than `last`. */
  ghost predicate Onward(sts: seq<Status>, last: Option<Status>) {
    && (forall i, j | 0 <= i < j < |sts| :: Rank(sts[i]) < Rank(sts[j]))
    && (last.Some? ==> forall i | 0 <= i < |sts| :: Rank(last.value) < Rank(sts[i]))
  }

  lemma {:induction false} StatusesConcat(a: seq<Event>, b: seq<Event>)
    ensures Statuses(a + b) == Statuses(a) + Statuses(b)
  {
    if a == [] {
      Neutral(b);
      Neutral(Statuses(b));
    } else {
      hide Told;
      DropOfConcat(a, b, 1);
      StatusesConcat(a[1..], b);
      Assoc(Told(a[0]), Statuses(a[1..]), Statuses(b));
    }
  }

  /** A later poll's status is `last`'s or further on. */
  ghost predicate NotBefore(snaps: seq<Option<Row>>, k: nat, last: Option<Status>) {
    last.Some? ==> !Terminal(last.value) && forall i | k <= i < |snaps| && snaps[i].Some? ::
      snaps[i].value.status == last.value || Rank(last.value) < Rank(snaps[i].value.status)
  }

  lemma {:induction false} StatusesGoOnward(snaps: seq<Option<Row>>, k: nat, last: Option<Status>)
    requires Polls(snaps) && NotBefore(snaps, k, last)
    ensures Onward(Statuses(Events(snaps, k, last)), last)
    decreases |snaps| - k
  {
    if k < |snaps| && snaps[k].Some? {
      var st := snaps[k].value.status;
      assert last.Some? ==> st == last.value || Rank(last.value) < Rank(st);
      hide Statuses, Events, Onward, Rank, NotBefore, Polls;
      Unfold(snaps, k, last);
      if Terminal(st) {
        NothingOnward(Some(st));
        OneMore(st, [], last);
        Neutral([st]);
      } else {
        LaterPolls(snaps, k);
        StatusesGoOnward(snaps, k + 1, Some(st));
        OneMore(st, Statuses(Events(snaps, k + 1, Some(st))), last);
      }
    } else {
      Silent(snaps, k, last);
      NothingOnward(last);
    }
  }

  lemma NothingOnward(last: Option<Status>)
    ensures Onward([], last)
  {
  }

  lemma LaterPolls(snaps: seq<Option<Row>>, k: nat)
    requires Polls(snaps) && k < |snaps| && snaps[k].Some? && !Terminal(snaps[k].value.status)
    ensures NotBefore(snaps, k + 1, Some(snaps[k].value.status))
  {
    var st := snaps[k].value.status;
    forall i | k + 1 <= i < |snaps| && snaps[i].Some?
      ensures snaps[i].value.status == st || Rank(st) < Rank(snaps[i].value.status)
    {
      assert Later(snaps[k], snaps[i]);
    }
  }

  lemma OneMore(st: Status, rest: seq<Status>, last: Option<Status>)
    requires Onward(rest, Some(st)) && (last.Some? ==> st == last.value || Rank(last.value) < Rank(st))
    ensures Onward(if Some(st) != last then [st] + rest else rest, last)
  {
    hide Rank;
    var t := [st] + rest;
    assert t[0] == st && forall i | 0 < i < |t| :: t[i] == rest[i - 1];
  }

  lemma Silent(snaps: seq<Option<Row>>, k: nat, last: Option<Status>)
    requires k >= |snaps| || snaps[k].None?
    ensures Statuses(Events(snaps, k, last)) == []
  {
    assert Statuses([Vanished]) == [];
  }

  /** One poll's share of the statuses. */
  lemma Unfold(snaps: seq<Option<Row>>, k: nat, last: Option<Status>)
    requires k < |snaps| && snaps[k].Some?
    ensures var r := snaps[k].value;
      Statuses(Events(snaps, k, last))
      == var rest := if Terminal(r.status) then [] else Statuses(Events(snaps, k + 1, Some(r.status)));
        if Some(r.status) != last then [r.status] + rest else rest
  {
    var r := snaps[k].value;
    var n, b, rest := News(r, last), Beat(k), Events(snaps, k + 1, Some(r.status));
    StatusesConcat(n, [DoneEvent]);
    StatusesConcat(n + b, rest);
    StatusesConcat(n, b);
    assert Statuses([Heartbeat]) == [] && Statuses([DoneEvent]) == [] && Statuses([Report(r)]) == [r.status];
    Neutral(Statuses(n));
    Neutral(Statuses(rest));
  }

  // ----- the end of a stream -----

  predicate Ends(r: Option<Row>) { r.Some? && Terminal(r.value.status) }

  ghost predicate EndSeen(snaps: seq<Option<Row>>, k: nat) {
    exists i :: k <= i < |snaps| && Ends(snaps[i])
  }

  /** The done event closes the stream, comes once, and after a status that is final. */
  ghost predicate WellEnded(ev: seq<Event>) {
    DoneEvent in ev ==>
      && ev[|ev| - 1] == DoneEvent && DoneEvent !in ev[..|ev| - 1]
      && Statuses(ev) != [] && Terminal(Statuses(ev)[|Statuses(ev)| - 1])
  }

  /** A stream sends its done event iff one of its polls finds the run at its end. */
  lemma {:induction false} DoneIffEndSeen(snaps: seq<Option<Row>>, k: nat, last: Option<Status>)
    requires Polls(snaps) && NotBefore(snaps, k, last)
    ensures DoneEvent in Events(snaps, k, last) <==> EndSeen(snaps, k)
    ensures WellEnded(Events(snaps, k, last))
    decreases |snaps| - k
  {
    if k < |snaps| && snaps[k].Some? {
      var r := snaps[k].value;
      var st := r.status;
      if Terminal(st) {
        assert Ends(snaps[k]);
        EndsHere(r, last);
      } else {
        hide Statuses, Polls, NotBefore, WellEnded, Later;
        LaterPolls(snaps, k);
        DoneIffEndSeen(snaps, k + 1, Some(st));
        EndSeenLater(snaps, k);
        EndsLater(News(r, last) + Beat(k), Events(snaps, k + 1, Some(st)));
      }
    } else {
      NoEnd(snaps, k);
    }
  }

  lemma EndSeenLater(snaps: seq<Option<Row>>, k: nat)
    requires k < |snaps| && !Ends(snaps[k])
    ensures EndSeen(snaps, k) <==> EndSeen(snaps, k + 1)
  {
  }

  lemma NoEnd(snaps: seq<Option<Row>>, k: nat)
    requires Polls(snaps) && (k >= |snaps| || snaps[k].None?)
    ensures !EndSeen(snaps, k)
  {
    forall i | k <= i < |snaps| ensures !Ends(snaps[i]) {
      assert i > k ==> Later(snaps[k], snaps[i]);
    }
  }

  lemma EndsHere(r: Row, last: Option<Status>)
    requires Terminal(r.status) && (last.Some? ==> !Terminal(last.value))
    ensures DoneEvent in News(r, last) + [DoneEvent] && WellEnded(News(r, last) + [DoneEvent])
  {
    var ev := [Report(r)] + [DoneEvent];
    StatusesConcat([Report(r)], [DoneEvent]);
    assert Statuses([Report(r)]) == [r.status] && Statuses([DoneEvent]) == [];
    assert ev[..|ev| - 1] == [Report(r)];
  }

  lemma EndsLater(front: seq<Event>, rest: seq<Event>)
    requires DoneEvent !in front && WellEnded(rest)
    ensures DoneEvent in front + rest <==> DoneEvent in rest
    ensures WellEnded(front + rest)
  {
    StatusesConcat(front, rest);
    if DoneEvent in rest {
      assert (front + rest)[..|front + rest| - 1] == front + rest[..|rest| - 1];
    }
  }

  /** Every status a poll finds is sent, unless it is the one sent last. */
  lemma {:induction false} NothingIsMissed(snaps: seq<Option<Row>>, k: nat, last: Option<Status>, i: nat)
    requires Polls(snaps) && k <= i < |snaps| && snaps[i].Some?
    ensures Some(snaps[i].value.status) == last || snaps[i].value.status in Statuses(Events(snaps, k, last))
    decreases |snaps| - k
  {
    hide Statuses, Events;
    assert i > k ==> Later(snaps[k], snaps[i]);
    Unfold(snaps, k, last);
    if i > k && !Ends(snaps[k]) {
      NothingIsMissed(snaps, k + 1, Some(snaps[k].value.status), i);
    }
  }

  // ----- orchestrator and stream together -----

  /** Poll `i` comes after the orchestrator's first `times[i]` steps. */
  ghost predicate InOrder(times: seq<nat>, actions: seq<Action>) {
    && |times| == TICKS
    && (forall i | 0 <= i < |times| :: times[i] <= |actions|)
    && (forall i, j | 0 <= i < j < |times| :: times[i] <= times[j])
  }

  ghost function Polled(s: State, actions: seq<Action>, times: seq<nat>): (snaps: seq<Option<Row>>)
    requires InOrder(times, actions)
    ensures |snaps| == TICKS
  {
    seq(TICKS, i requires 0 <= i < TICKS => Run(s, actions[..times[i]]).db)
  }

  lemma PolledInOrder(s: State, actions: seq<Action>, times: seq<nat>)
    requires Inv(s) && InOrder(times, actions)
    ensures Polls(Polled(s, actions, times))
  {
    hide Run, Inv;
    forall i, j | 0 <= i < j < TICKS ensures Later(Polled(s, actions, times)[i], Polled(s, actions, times)[j]) {
      RunMovesForward(s, actions, times[i], times[j]);
    }
  }

  /** In every interleaving of the orchestrator with a polling stream, crashes and deletion included: the
      statuses sent move strictly forward, so none is repeated; each status a poll found is among them;
      and the done event is sent iff a poll found the run at its end, once, last, after a final status. */
  lemma StreamIsFaithful(s: State, actions: seq<Action>, times: seq<nat>)
    requires Inv(s) && InOrder(times, actions)
    ensures var snaps := Polled(s, actions, times); var ev := [Preamble] + Events(snaps, 0, None);
      && Onward(Statuses(ev), None)
      && (forall i | 0 <= i < TICKS && snaps[i].Some? :: snaps[i].value.status in Statuses(ev))
      && (DoneEvent in ev <==> EndSeen(snaps, 0)) && WellEnded(ev)
  {
    hide Polled, Inv, Onward, Events, Statuses, EndSeen, WellEnded, Later;
    var snaps := Polled(s, actions, times);
    PolledInOrder(s, actions, times);
    StatusesGoOnward(snaps, 0, None);
    DoneIffEndSeen(snaps, 0, None);
    EndsLater([Preamble], Events(snaps, 0, None));
    StatusesConcat([Preamble], Events(snaps, 0, None));
    PreambleTellsNothing();
    Neutral(Statuses(Events(snaps, 0, None)));
    forall i | 0 <= i < TICKS && snaps[i].Some?
      ensures snaps[i].value.status in Statuses(Events(snaps, 0, None))
    {
      NothingIsMissed(snaps, 0, None, i);
    }
  }

  lemma PreambleTellsNothing()
    ensures Statuses([Preamble]) == []
  {
  }

  /** Once a poll has found a run done, whoever reads it later reads the same row, or none: no issue is
      added, lost or changed after the listener is told. */
  lemma DoneIsFinal(s: State, actions: seq<Action>, times: seq<nat>, i: nat, n: nat)
    requires Inv(s) && InOrder(times, actions) && i < TICKS && times[i] <= n <= |actions|
    requires Ends(Polled(s, actions, times)[i])
    ensures Run(s, actions[..n]).db.None? || Run(s, actions[..n]).db == Polled(s, actions, times)[i]
    ensures RowOk(Polled(s, actions, times)[i].value)
  {
    hide Run, RowOk;
    RunMovesForward(s, actions, times[i], n);
    RunKeepsInv(s, actions[..times[i]]);
  }

  // ----- what a status event tells -----

  predicate Tells(e: Event, row: Option<Row>) {
    row.Some? && e == StatusEvent(row.value.status, row.value.framework, row.value.error)
  }

  /** Each status event gives status, framework and error of a row that a poll found, and "vanished" is sent only when
      a poll found none. */
  lemma {:induction false} EventsAreReports(snaps: seq<Option<Row>>, k: nat, last: Option<Status>, e: Event)
    requires e in Events(snaps, k, last)
    ensures e.StatusEvent? ==> exists i :: k <= i < |snaps| && Tells(e, snaps[i])
    ensures e.Vanished? ==> exists i :: k <= i < |snaps| && snaps[i].None?
    decreases |snaps| - k
  {
    if snaps[k].Some? && e in News(snaps[k].value, last) { assert Tells(e, snaps[k]); }
    if snaps[k].Some? && !Terminal(snaps[k].value.status) && e !in News(snaps[k].value, last) + Beat(k) {
      EventsAreReports(snaps, k + 1, Some(snaps[k].value.status), e);
    }
  }
}
