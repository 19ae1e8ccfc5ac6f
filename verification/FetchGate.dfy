/** app/ingest_standards/fetcher.py: the two semaphores and the per-host throttle every fetch of a crawl
    passes, one atomic section per step, in every interleaving. */
module FetchGate {
  import opened Collections

  type Host(==, !new) = nat

  /** The options of a crawl: both concurrency caps and the throttle's least interval. */
  datatype Options = Options(globalCap: nat, hostCap: nat, minInterval: real)

  /** Waiting, holding a global slot, holding a host slot too, holding the host's throttle lock until
      `wakeAt`, fetching, and out again. */
  datatype Stage = Queued | HasGlobal | Entered | Throttled(wakeAt: real) | Fetching | Left
  datatype Job = Job(host: Host, delay: real, stage: Stage)

  /** A fetch let through at a time, with the delay it asked for. */
  datatype Stamp = Stamp(host: Host, at: real, delay: real)

  datatype State = State(globalFree: int, hostFree: map<Host, int>, lastAt: map<Host, real>, locked: set<Host>,
                         jobs: map<nat, Job>, clock: real, log: seq<Stamp>)

  datatype Action =
    | Admit(t: nat, host: Host, crawlDelay: real)
    | TakeGlobal(t: nat)
    | TakeHost(t: nat)
    | Lock(t: nat)
    | PassTime(d: real)
    | LetThrough(t: nat)
    | Leave(t: nat)

  // ----- what each section does -----

  /** The slots of a host's semaphore, made full when first asked for. */
  function FreeAt(s: State, h: Host, o: Options): int { if h in s.hostFree then s.hostFree[h] else o.hostCap }

  function LastAt(s: State, h: Host): real { if h in s.lastAt then s.lastAt[h] else 0.0 }

  function Delay(o: Options, crawlDelay: real): real { if crawlDelay > o.minInterval then crawlDelay else o.minInterval }

  function WakeAt(s: State, j: Job): real {
    var gap := s.clock - LastAt(s, j.host);
    if gap < j.delay then s.clock + (j.delay - gap) else s.clock
  }

  predicate At(s: State, t: nat, stage: Stage) { t in s.jobs && s.jobs[t].stage == stage }

  predicate IsThrottled(s: State, t: nat) { t in s.jobs && s.jobs[t].stage.Throttled? }

  function Moved(s: State, t: nat, stage: Stage): State
    requires t in s.jobs
  {
    s.(jobs := s.jobs[t := s.jobs[t].(stage := stage)])
  }

  /** One step; an action that does not apply changes nothing. */
  function Step(s: State, a: Action, o: Options): State {
    match a
    case Admit(t, h, crawlDelay) =>
      if t in s.jobs then s else s.(jobs := s.jobs[t := Job(h, Delay(o, crawlDelay), Queued)])
    case TakeGlobal(t) =>
      if At(s, t, Queued) && s.globalFree > 0
      then Moved(s, t, HasGlobal).(globalFree := s.globalFree - 1)
      else s
    case TakeHost(t) =>
      if At(s, t, HasGlobal) && FreeAt(s, s.jobs[t].host, o) > 0
      then
        var h := s.jobs[t].host;
        Moved(s, t, Entered).(hostFree := s.hostFree[h := FreeAt(s, h, o) - 1])
      else s
    case Lock(t) =>
      if At(s, t, Entered) && s.jobs[t].host !in s.locked
      then Moved(s, t, Throttled(WakeAt(s, s.jobs[t]))).(locked := s.locked + {s.jobs[t].host})
      else s
    case PassTime(d) => if d >= 0.0 then s.(clock := s.clock + d) else s
    case LetThrough(t) =>
      if IsThrottled(s, t) && s.clock >= s.jobs[t].stage.wakeAt
      then
        var j := s.jobs[t];
        Moved(s, t, Fetching).(lastAt := s.lastAt[j.host := s.clock], locked := s.locked - {j.host},
                               log := s.log + [Stamp(j.host, s.clock, j.delay)])
      else s
    case Leave(t) => if t in s.jobs && !s.jobs[t].stage.Left? then Gone(s, t, o) else s
  }

  /** Job `t` ends, by returning or raising, at any stage: it gives back what it holds. */
  function Gone(s: State, t: nat, o: Options): State
    requires t in s.jobs
  {
    var j := s.jobs[t];
    var out := Moved(s, t, Left);
    var unlocked := if j.stage.Throttled? then out.(locked := s.locked - {j.host}) else out;
    var noHost := if HoldsHost(j, j.host) then unlocked.(hostFree := s.hostFree[j.host := FreeAt(s, j.host, o) + 1]) else unlocked;
    if HoldsGlobal(j) then noHost.(globalFree := s.globalFree + 1) else noHost
  }

  /** The crawl's semaphores and throttle, updated in place; the clock is the event loop's. */
  class Gate {
    const options: Options
    var globalFree: int
    var hostFree: map<Host, int>
    var lastAt: map<Host, real>
    var locked: set<Host>
    var jobs: map<nat, Job>
    var clock: real
    ghost var log: seq<Stamp>

    ghost function View(): State reads this { State(globalFree, hostFree, lastAt, locked, jobs, clock, log) }

    constructor (options: Options)
      ensures this.options == options && View() == Fresh(options)
    {
      this.options := options;
      globalFree := options.globalCap;
      hostFree, lastAt, locked, jobs, clock, log := map[], map[], {}, map[], 0.0, [];
    }

    method AcquireGlobal(t: nat)
      requires At(View(), t, Queued) && globalFree > 0
      modifies this
      ensures View() == Step(old(View()), TakeGlobal(t), options)
    {
      globalFree := globalFree - 1;
      jobs := jobs[t := jobs[t].(stage := HasGlobal)];
    }

    method AcquireHost(t: nat)
      requires At(View(), t, HasGlobal) && FreeAt(View(), jobs[t].host, options) > 0
      modifies this
      ensures View() == Step(old(View()), TakeHost(t), options)
    {
      var h := jobs[t].host;
      if h !in hostFree { hostFree := hostFree[h := options.hostCap]; }
      hostFree := hostFree[h := hostFree[h] - 1];
      jobs := jobs[t := jobs[t].(stage := Entered)];
    }

    /** `_HostThrottle.wait` up to its sleep. */
    method WaitBegins(t: nat)
      requires At(View(), t, Entered) && jobs[t].host !in locked
      modifies this
      ensures View() == Step(old(View()), Lock(t), options)
    {
      var job := jobs[t];
      locked := locked + {job.host};
      var last := 0.0;
      if job.host in lastAt { last := lastAt[job.host]; }
      var gap, wakeAt := clock - last, clock;
      if gap < job.delay { wakeAt := clock + (job.delay - gap); }
      jobs := jobs[t := job.(stage := Throttled(wakeAt))];
    }

    /** `_HostThrottle.wait` after its sleep. */
    method WaitEnds(t: nat)
      requires IsThrottled(View(), t) && clock >= jobs[t].stage.wakeAt
      modifies this
      ensures View() == Step(old(View()), LetThrough(t), options)
    {
      var job := jobs[t];
      lastAt := lastAt[job.host := clock];
      locked := locked - {job.host};
      log := log + [Stamp(job.host, clock, job.delay)];
      jobs := jobs[t := job.(stage := Fetching)];
    }

    /** The way out of the guarded blocks, after the fetch or by an exception before it: the throttle's lock
        and the slots taken so far are given back, innermost first. */
    method Release(t: nat)
      requires t in jobs && !jobs[t].stage.Left?
      modifies this
      ensures View() == Step(old(View()), Action.Leave(t), options)
    {
      var h, stage := jobs[t].host, jobs[t].stage;
      if stage.Throttled? { locked := locked - {h}; }
      if stage.Throttled? || stage.Entered? || stage.Fetching? {
        if h !in hostFree { hostFree := hostFree[h := options.hostCap]; }
        hostFree := hostFree[h := hostFree[h] + 1];
      }
      if !stage.Queued? { globalFree := globalFree + 1; }
      jobs := jobs[t := jobs[t].(stage := Left)];
    }
  }

  function Fresh(o: Options): State { State(o.globalCap, map[], map[], {}, map[], 0.0, []) }

  // ----- the caps -----

  predicate HoldsGlobal(j: Job) { !j.stage.Queued? && !j.stage.Left? }
  predicate HoldsHost(j: Job, h: Host) { j.host == h && (j.stage.Entered? || j.stage.Throttled? || j.stage.Fetching?) }

  function GlobalHolders(jobs: map<nat, Job>): set<nat> { set t | t in jobs && HoldsGlobal(jobs[t]) }
  function HostHolders(jobs: map<nat, Job>, h: Host): set<nat> { set t | t in jobs && HoldsHost(jobs[t], h) }

  /** Every slot is free or held, by as many jobs as are not free. */
  ghost predicate SlotsAdd(s: State, o: Options) {
    && s.globalFree >= 0 && s.globalFree + |GlobalHolders(s.jobs)| == o.globalCap
    && forall h :: HostSlots(s, h, o)
  }

  ghost predicate HostSlots(s: State, h: Host, o: Options) {
    FreeAt(s, h, o) >= 0 && FreeAt(s, h, o) + |HostHolders(s.jobs, h)| == o.hostCap
  }

  // ----- the throttle -----

  /** Only the job that holds a host's lock can stamp that host next, and not before its delay has passed
      since the last stamp. */
  ghost predicate LockInv(s: State) {
    && (forall t | IsThrottled(s, t) ::
        s.jobs[t].host in s.locked && s.jobs[t].stage.wakeAt >= LastAt(s, s.jobs[t].host) + s.jobs[t].delay)
    && (forall t, u | IsThrottled(s, t) && IsThrottled(s, u) && s.jobs[t].host == s.jobs[u].host :: t == u)
  }

  /** Two stamps of one host are apart by the later one's delay at least. */
  ghost predicate Spaced(log: seq<Stamp>) {
    forall i, j | 0 <= i < j < |log| && log[i].host == log[j].host :: log[j].at - log[i].at >= log[j].delay
  }

  ghost predicate LogInv(s: State, o: Options) {
    && Spaced(s.log)
    && (forall i | 0 <= i < |s.log| :: s.log[i].host in s.lastAt && s.log[i].at <= s.lastAt[s.log[i].host])
    && (forall h | h in s.lastAt :: s.lastAt[h] <= s.clock)
    && (forall i | 0 <= i < |s.log| :: s.log[i].delay >= o.minInterval)
    && (forall t | t in s.jobs :: s.jobs[t].delay >= o.minInterval)
  }

  ghost predicate Inv(s: State, o: Options) { SlotsAdd(s, o) && LockInv(s) && LogInv(s, o) }

  lemma FreshIsGood(o: Options)
    ensures Inv(Fresh(o), o)
  {
    assert GlobalHolders(map[]) == {};
    forall h ensures HostSlots(Fresh(o), h, o) { assert HostHolders(map[], h) == {}; }
  }

  function HostChange(jobs: map<nat, Job>, t: nat, j: Job, h: Host): int {
    (if HoldsHost(j, h) then 1 else 0) - (if t in jobs && HoldsHost(jobs[t], h) then 1 else 0)
  }

  function GlobalChange(jobs: map<nat, Job>, t: nat, j: Job): int {
    (if HoldsGlobal(j) then 1 else 0) - (if t in jobs && HoldsGlobal(jobs[t]) then 1 else 0)
  }

  /** Putting job `j` in place of what was at `t` changes the holders by at most `t`. */
  lemma HoldersChange(jobs: map<nat, Job>, t: nat, j: Job)
    ensures |GlobalHolders(jobs[t := j])| == |GlobalHolders(jobs)| + GlobalChange(jobs, t, j)
    ensures forall h :: |HostHolders(jobs[t := j], h)| == |HostHolders(jobs, h)| + HostChange(jobs, t, j, h)
  {
    Swap(GlobalHolders(jobs), GlobalHolders(jobs[t := j]), t);
    forall h ensures |HostHolders(jobs[t := j], h)| == |HostHolders(jobs, h)| + HostChange(jobs, t, j, h) {
      Swap(HostHolders(jobs, h), HostHolders(jobs[t := j], h), t);
    }
  }

  lemma Swap(a: set<nat>, b: set<nat>, t: nat)
    requires a - {t} == b - {t}
    ensures |b| == |a| - (if t in a then 1 else 0) + (if t in b then 1 else 0)
  {
    assert |a - {t}| == |a| - if t in a then 1 else 0;
    assert |b - {t}| == |b| - if t in b then 1 else 0;
  }

  /** A step that puts `j` in place of job `t` and moves the free slots the other way. */
  lemma SlotsMove(s: State, s': State, t: nat, j: Job, o: Options)
    requires SlotsAdd(s, o) && s'.jobs == s.jobs[t := j]
    requires s'.globalFree >= 0 && s'.globalFree == s.globalFree - GlobalChange(s.jobs, t, j)
    requires forall h :: FreeAt(s', h, o) >= 0 && FreeAt(s', h, o) == FreeAt(s, h, o) - HostChange(s.jobs, t, j, h)
    ensures SlotsAdd(s', o)
  {
    hide GlobalHolders, HostHolders, GlobalChange, HostChange, FreeAt;
    HoldersChange(s.jobs, t, j);
    forall h ensures HostSlots(s', h, o) { assert HostSlots(s, h, o); }
  }

  lemma SlotsStay(s: State, s': State, o: Options)
    requires SlotsAdd(s, o) && s'.jobs == s.jobs && s'.globalFree == s.globalFree && s'.hostFree == s.hostFree
    ensures SlotsAdd(s', o)
  {
    hide GlobalHolders, HostHolders;
    forall h ensures HostSlots(s', h, o) { assert HostSlots(s, h, o); }
  }

  lemma StepKeepsSlots(s: State, a: Action, o: Options)
    requires SlotsAdd(s, o)
    ensures SlotsAdd(Step(s, a, o), o)
  {
    hide SlotsAdd, GlobalHolders, HostHolders, WakeAt, Delay;
    var s' := Step(s, a, o);
    if s'.jobs == s.jobs {
      SlotsUnmoved(s, a, o);
      SlotsStay(s, s', o);
    } else {
      FreeSlots(s, o);
      forall h ensures FreeAt(s', h, o) >= 0 && FreeAt(s', h, o) == FreeAt(s, h, o) - HostChange(s.jobs, a.t, s'.jobs[a.t], h) {
        FreeMoves(s, a, o, h);
      }
      SlotsMove(s, s', a.t, s'.jobs[a.t], o);
    }
  }

  lemma FreeMoves(s: State, a: Action, o: Options, h: Host)
    requires !a.PassTime? && a.t in Step(s, a, o).jobs && Step(s, a, o).jobs != s.jobs && FreeAt(s, h, o) >= 0
    ensures var s' := Step(s, a, o);
      FreeAt(s', h, o) >= 0 && FreeAt(s', h, o) == FreeAt(s, h, o) - HostChange(s.jobs, a.t, s'.jobs[a.t], h)
  {
    hide WakeAt, Delay;
  }

  lemma SlotsUnmoved(s: State, a: Action, o: Options)
    requires Step(s, a, o).jobs == s.jobs
    ensures Step(s, a, o).globalFree == s.globalFree && Step(s, a, o).hostFree == s.hostFree
  {
  }

  lemma FreeSlots(s: State, o: Options)
    requires SlotsAdd(s, o)
    ensures s.globalFree >= 0 && forall h :: FreeAt(s, h, o) >= 0
  {
    hide GlobalHolders, HostHolders;
    forall h ensures FreeAt(s, h, o) >= 0 { assert HostSlots(s, h, o); }
  }

  /** Leaving touches no stamp and, of the locks, only one's own. */
  lemma GoneIs(s: State, t: nat, o: Options)
    requires t in s.jobs
    ensures var s' := Gone(s, t, o); var j := s.jobs[t];
      && s'.jobs == s.jobs[t := j.(stage := Left)] && s'.lastAt == s.lastAt && s'.clock == s.clock && s'.log == s.log
      && s'.locked == if j.stage.Throttled? then s.locked - {j.host} else s.locked
  {
  }

  lemma WakesLate(s: State, j: Job)
    ensures WakeAt(s, j) >= LastAt(s, j.host) + j.delay
  {
  }

  /** A job waiting after a step was waiting before, or has just taken a lock that was free. */
  lemma ThrottledAfter(s: State, a: Action, o: Options, t: nat)
    requires LockInv(s) && IsThrottled(Step(s, a, o), t)
    ensures var s' := Step(s, a, o); var j := s'.jobs[t];
      && j.host in s'.locked && j.stage.wakeAt >= LastAt(s', j.host) + j.delay
      && ((IsThrottled(s, t) && s.jobs[t] == j) || (a == Lock(t) && j.host !in s.locked))
  {
    hide Gone, WakeAt, Delay, FreeAt;
    if a.Leave? && a.t in s.jobs { GoneIs(s, a.t, o); }
    if a == Lock(t) && t in s.jobs { WakesLate(s, s.jobs[t]); }
  }

  lemma StepKeepsLock(s: State, a: Action, o: Options)
    requires LockInv(s)
    ensures LockInv(Step(s, a, o))
  {
    hide Step;
    var s' := Step(s, a, o);
    forall t | IsThrottled(s', t)
      ensures s'.jobs[t].host in s'.locked
           && s'.jobs[t].stage.wakeAt >= LastAt(s', s'.jobs[t].host) + s'.jobs[t].delay
    {
      ThrottledAfter(s, a, o, t);
    }
    forall t, u | IsThrottled(s', t) && IsThrottled(s', u) && s'.jobs[t].host == s'.jobs[u].host ensures t == u {
      ThrottledAfter(s, a, o, t);
      ThrottledAfter(s, a, o, u);
    }
  }

  lemma StepKeepsLog(s: State, a: Action, o: Options)
    requires LockInv(s) && LogInv(s, o)
    ensures LogInv(Step(s, a, o), o)
  {
    hide Gone, WakeAt, FreeAt, Spaced, LockInv;
    if a.Leave? && a.t in s.jobs { GoneIs(s, a.t, o); }
    if a.LetThrough? && IsThrottled(s, a.t) && s.clock >= s.jobs[a.t].stage.wakeAt {
      WakeIsLate(s, a.t);
      StampSpaced(s, s.jobs[a.t], o);
    }
  }

  lemma WakeIsLate(s: State, t: nat)
    requires LockInv(s) && IsThrottled(s, t)
    ensures s.jobs[t].stage.wakeAt >= LastAt(s, s.jobs[t].host) + s.jobs[t].delay
  {
  }

  lemma StampSpaced(s: State, j: Job, o: Options)
    requires LogInv(s, o) && s.clock >= LastAt(s, j.host) + j.delay
    ensures Spaced(s.log + [Stamp(j.host, s.clock, j.delay)])
  {
    var log := s.log + [Stamp(j.host, s.clock, j.delay)];
    forall i, k | 0 <= i < k < |log| && log[i].host == log[k].host ensures log[k].at - log[i].at >= log[k].delay {
      if k == |s.log| { assert s.log[i].at <= LastAt(s, j.host); }
    }
  }

  // ----- whole crawls -----

  ghost function Run(s: State, actions: seq<Action>, o: Options): State {
    if actions == [] then s else Step(Run(s, actions[..|actions| - 1], o), actions[|actions| - 1], o)
  }

  lemma {:induction false} RunKeepsInv(s: State, actions: seq<Action>, o: Options)
    requires Inv(s, o)
    ensures Inv(Run(s, actions, o), o)
  {
    if actions != [] {
      hide SlotsAdd, LockInv, LogInv, Step;
      var n := |actions| - 1;
      RunKeepsInv(s, actions[..n], o);
      StepKeepsSlots(Run(s, actions[..n], o), actions[n], o);
      StepKeepsLock(Run(s, actions[..n], o), actions[n], o);
      StepKeepsLog(Run(s, actions[..n], o), actions[n], o);
    }
  }

  function Fetches(jobs: map<nat, Job>): set<nat> { set t | t in jobs && jobs[t].stage.Fetching? }

  function FetchesOf(jobs: map<nat, Job>, h: Host): set<nat> { set t | t in Fetches(jobs) && jobs[t].host == h }

  /** In every interleaving from the start of a crawl: no more fetches at once than the global cap, no more
      of one host than the host cap, and two fetches of one host start at least the later one's delay
      apart, which is at least the throttle's interval. */
  lemma CapsAndSpacing(actions: seq<Action>, o: Options, h: Host)
    ensures var s := Run(Fresh(o), actions, o);
      && |Fetches(s.jobs)| <= o.globalCap
      && |FetchesOf(s.jobs, h)| <= o.hostCap
      && Spaced(s.log) && forall i | 0 <= i < |s.log| :: s.log[i].delay >= o.minInterval
  {
    hide Run, Spaced, LockInv;
    FreshIsGood(o);
    RunKeepsInv(Fresh(o), actions, o);
    var s := Run(Fresh(o), actions, o);
    SubsetSize(Fetches(s.jobs), GlobalHolders(s.jobs));
    SubsetSize(FetchesOf(s.jobs, h), HostHolders(s.jobs, h));
    assert HostSlots(s, h, o);
  }

  // ----- a fetch gets through, and no later than it must -----

  /** A job asks for the longer of the robots' delay and the least interval. */
  lemma DelayIsLonger(s: State, t: nat, h: Host, crawlDelay: real, o: Options)
    requires t !in s.jobs
    ensures var s' := Step(s, Admit(t, h, crawlDelay), o);
      t in s'.jobs && s'.jobs[t].host == h && s'.jobs[t].stage == Queued
      && s'.jobs[t].delay >= crawlDelay && s'.jobs[t].delay >= o.minInterval
      && (s'.jobs[t].delay == crawlDelay || s'.jobs[t].delay == o.minInterval)
  {
  }

  /** The time a job that takes the lock must wait for: now, or its delay after the host's last stamp. */
  lemma WaitIsShortest(s: State, t: nat, o: Options)
    requires At(s, t, Entered) && s.jobs[t].host !in s.locked
    ensures var s' := Step(s, Lock(t), o); var earliest := LastAt(s, s.jobs[t].host) + s.jobs[t].delay;
      t in s'.jobs && s'.jobs[t].stage == Throttled(if s.clock < earliest then earliest else s.clock)
  {
  }

  /** A queued job that finds slots free and its host's lock open is let through as soon as its wait is over, and
      then leaves everything as free as it was. */
  lemma GetsThrough(s: State, t: nat, o: Options, d: real)
    requires At(s, t, Queued) && s.globalFree > 0 && FreeAt(s, s.jobs[t].host, o) > 0 && s.jobs[t].host !in s.locked
    requires d >= 0.0 && s.clock + d >= LastAt(s, s.jobs[t].host) + s.jobs[t].delay
    ensures var h := s.jobs[t].host;
      var inside := Step(Step(Step(Step(Step(s, TakeGlobal(t), o), TakeHost(t), o), Lock(t), o), PassTime(d), o), LetThrough(t), o);
      && At(inside, t, Fetching) && inside.log == s.log + [Stamp(h, s.clock + d, s.jobs[t].delay)]
      && LastAt(inside, h) == s.clock + d && h !in inside.locked
      && var out := Step(inside, Action.Leave(t), o);
        At(out, t, Left) && out.globalFree == s.globalFree && FreeAt(out, h, o) == FreeAt(s, h, o) && out.locked == s.locked
  {
    var s1 := Step(s, TakeGlobal(t), o);
    var s2 := Step(s1, TakeHost(t), o);
    var s3 := Step(s2, Lock(t), o);
    assert At(s1, t, HasGlobal) && At(s2, t, Entered);
    WaitIsShortest(s2, t, o);
    assert IsThrottled(s3, t);
  }
}
