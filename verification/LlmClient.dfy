/** app/llm/client.py: the retry and rotation loop of `OllamaCloudLLM._request`. */
module LlmClient {
  import opened Wrappers
  import opened Text
  import opened KeyRotation

  /** One reply: 2xx, 429, 401/403, 5xx or a transport error, or any other status. */
  datatype Reply =
    | Answer
    | TooMany(retryAfter: Option<real>)
    | Refused(reason: string)
    | Failed(reason: string)
    | Other

  /** The clock readings of one attempt: the refresh, the error of `acquire`, the report. */
  datatype Clock = Clock(now: real, later: real, at: real)

  /** The outside world: the clock at each attempt, and how each attempt with each key ends. */
  datatype World = World(clock: nat -> Clock, reply: (nat, nat) -> Reply)

  datatype Result = Response | HttpError | KeysExhausted(retryAfter: Option<real>)

  /** The reports made after a reply for key `idx`. */
  function Effect(r: Rotator, idx: nat, reply: Reply, at: real, maxRetries: nat): Rotator
    requires idx < |r.states|
  {
    var key := r.states[idx].key;
    match reply
    case Answer => r.After(key, Success, at)
    case TooMany(after) => r.After(key, RateLimited(after), at)
    case Refused(reason) => r.After(key, Unauthorized(reason), at)
    case Failed(reason) =>
      var failed := r.After(key, ServerError(reason), at);
      if failed.states[idx].failures > maxRetries then failed.After(key, CoolDown(None), at) else failed
    case Other => r
  }

  predicate IsFailure(reply: Reply) { reply.TooMany? || reply.Refused? || reply.Failed? }

  /** One attempt: the state before `acquire`, the key handed out, and the state after its reports. */
  datatype Attempt = Attempt(before: Rotator, idx: nat, after: Rotator)

  /** Attempt number `n` of a call. */
  ghost predicate IsAttempt(a: Attempt, n: nat, w: World, maxRetries: nat) {
    var r := a.before.Refreshed(w.clock(n).now);
    && a.before.Valid() && a.idx < |r.states|
    && a.before.Acquires(w.clock(n).now, w.clock(n).later, r.Hand(a.idx), Got(a.idx))
    && a.after == Effect(r.Hand(a.idx), a.idx, w.reply(n, a.idx), w.clock(n).at, maxRetries)
  }

  ghost function Last(r: Rotator, log: seq<Attempt>): Rotator {
    if log == [] then r else log[|log| - 1].after
  }

  /** The attempts follow one another from `r`, and all but perhaps the last failed. */
  ghost predicate IsLog(r: Rotator, log: seq<Attempt>, w: World, maxRetries: nat) {
    && (forall n | 0 <= n < |log| :: IsAttempt(log[n], n, w, maxRetries) && log[n].before == Last(r, log[..n]))
    && (forall n | 0 <= n < |log| - 1 :: IsFailure(w.reply(n, log[n].idx)))
  }

  ghost predicate AllFailed(log: seq<Attempt>, w: World) {
    forall n | 0 <= n < |log| :: IsFailure(w.reply(n, log[n].idx))
  }

  function Budget(r: Rotator, maxRetries: nat): nat { Tries(|r.states|, maxRetries) }

  /** A whole call from `r`, ending in state `end`. */
  ghost predicate IsCall(r: Rotator, log: seq<Attempt>, w: World, maxRetries: nat, result: Result, end: Rotator) {
    && IsLog(r, log, w, maxRetries) && |log| <= Budget(r, maxRetries)
    && match result
       case Response => log != [] && w.reply(|log| - 1, log[|log| - 1].idx).Answer? && end == Last(r, log)
       case HttpError => log != [] && w.reply(|log| - 1, log[|log| - 1].idx).Other? && end == Last(r, log)
       case KeysExhausted(retry) =>
         && AllFailed(log, w)
         && if |log| == Budget(r, maxRetries) then retry == None && end == Last(r, log)
            else Last(r, log).Acquires(w.clock(|log|).now, w.clock(|log|).later, end, Exhausted(retry))
  }

  lemma LogSnoc(r: Rotator, log: seq<Attempt>, a: Attempt, w: World, maxRetries: nat)
    requires IsLog(r, log, w, maxRetries) && AllFailed(log, w)
    requires IsAttempt(a, |log|, w, maxRetries) && a.before == Last(r, log)
    ensures IsLog(r, log + [a], w, maxRetries) && Last(r, log + [a]) == a.after
  {
    var l := log + [a];
    forall n | 0 <= n < |l| ensures IsAttempt(l[n], n, w, maxRetries) && l[n].before == Last(r, l[..n]) {
      if n < |log| { assert l[..n] == log[..n]; } else { assert l[..n] == log; }
    }
  }

  /** `_request`. */
  method Request(rotator: KeyRotator, maxRetries: nat, w: World) returns (result: Result, ghost log: seq<Attempt>)
    requires rotator.View().Valid()
    modifies rotator
    ensures rotator.View().Valid()
    ensures IsCall(old(rotator.View()), log, w, maxRetries, result, rotator.View())
  {
    hide Effect, Rotator.Refreshed, Rotator.After, Rotator.Acquires, IsAttempt, IsLog;
    ghost var start := rotator.View();
    var attemptsTotal := 0;
    var maxAttempts := |rotator.states| * (maxRetries + 1);
    log := [];
    EmptyLog(start, w, maxRetries);
    while attemptsTotal < maxAttempts
      invariant attemptsTotal == |log| <= maxAttempts == Budget(start, maxRetries)
      invariant rotator.View().Valid() && rotator.View() == Last(start, log)
      invariant IsLog(start, log, w, maxRetries) && AllFailed(log, w)
    {
      ghost var before := rotator.View();
      var clock := w.clock(attemptsTotal);
      var acquired := rotator.Acquire(clock.now, clock.later);
      if acquired.Exhausted? {
        return KeysExhausted(acquired.retryAfter), log;
      }
      var idx := acquired.idx;
      ghost var handed := rotator.View();
      HandedKey(before, clock.now, clock.later, handed, idx);
      var reply := w.reply(attemptsTotal, idx);
      Respond(rotator, idx, reply, clock.at, maxRetries);
      ghost var a := Attempt(before, idx, rotator.View());
      MakesAttempt(a, attemptsTotal, w, maxRetries, handed);
      LogSnoc(start, log, a, w, maxRetries);
      log := log + [a];
      attemptsTotal := attemptsTotal + 1;
      if reply.Other? { return HttpError, log; }
      if reply.Answer? { return Response, log; }
    }
    result := KeysExhausted(None);
  }

  /** The reports after one reply. */
  method Respond(rotator: KeyRotator, idx: nat, reply: Reply, at: real, maxRetries: nat)
    requires rotator.View().Valid() && idx < |rotator.states|
    modifies rotator
    ensures rotator.View().Valid()
    ensures rotator.View() == Effect(old(rotator.View()), idx, reply, at, maxRetries)
  {
    var key := rotator.states[idx].key;
    match reply
    case TooMany(after) => rotator.Report(key, RateLimited(after), at);
    case Refused(reason) => rotator.Report(key, Unauthorized(reason), at);
    case Failed(reason) =>
      rotator.Report(key, ServerError(reason), at);
      if rotator.states[idx].failures > maxRetries {
        rotator.Report(key, CoolDown(None), at);
      }
    case Answer => rotator.Report(key, Success, at);
    case Other =>
  }

  lemma EmptyLog(r: Rotator, w: World, maxRetries: nat)
    ensures IsLog(r, [], w, maxRetries)
  {
  }

  lemma HandedKey(r: Rotator, now: real, later: real, after: Rotator, idx: nat)
    requires r.Valid() && r.Acquires(now, later, after, Got(idx))
    ensures idx < |r.states| && after == r.Refreshed(now).Hand(idx) && |after.states| == |r.states|
  {
  }

  lemma MakesAttempt(a: Attempt, n: nat, w: World, maxRetries: nat, handed: Rotator)
    requires a.before.Valid() && a.before.Acquires(w.clock(n).now, w.clock(n).later, handed, Got(a.idx))
    requires a.idx < |handed.states| && a.after == Effect(handed, a.idx, w.reply(n, a.idx), w.clock(n).at, maxRetries)
    ensures IsAttempt(a, n, w, maxRetries)
  {
  }

  // ----- the attempt budget as a potential -----

  /** The failures a key can still take before it is out of the rotation. */
  function Weight(s: KeyState, maxRetries: nat): nat {
    if !s.status.Active? then 0 else if s.failures <= maxRetries then maxRetries + 1 - s.failures else 1
  }

  function Potential(states: seq<KeyState>, maxRetries: nat): nat {
    if states == [] then 0
    else Potential(states[..|states| - 1], maxRetries) + Weight(states[|states| - 1], maxRetries)
  }

  lemma {:induction false} PotentialUpdate(s: seq<KeyState>, i: nat, k: KeyState, maxRetries: nat)
    requires i < |s|
    ensures Potential(s[i := k], maxRetries) == Potential(s, maxRetries) - Weight(s[i], maxRetries) + Weight(k, maxRetries)
  {
    var n := |s| - 1;
    if i == n {
      assert s[i := k][..n] == s[..n];
    } else {
      PotentialUpdate(s[..n], i, k, maxRetries);
      assert s[i := k][..n] == s[..n][i := k];
    }
  }

  /** The tries that `n` keys can take in one call. */
  function Tries(n: nat, maxRetries: nat): nat { n * (maxRetries + 1) }

  lemma TriesNext(n: nat, maxRetries: nat)
    ensures Tries(n + 1, maxRetries) == Tries(n, maxRetries) + maxRetries + 1
  {
  }

  lemma NoTries(maxRetries: nat)
    ensures Tries(0, maxRetries) == 0
  {
  }

  lemma {:induction false} TriesMono(a: nat, b: nat, maxRetries: nat)
    requires a <= b
    ensures Tries(a, maxRetries) <= Tries(b, maxRetries)
  {
    hide Tries;
    if a < b {
      TriesMono(a, b - 1, maxRetries);
      TriesNext(b - 1, maxRetries);
    }
  }

  lemma {:induction false} PotentialBounds(s: seq<KeyState>, maxRetries: nat)
    ensures Potential(s, maxRetries) <= Tries(|s|, maxRetries)
    ensures Potential(s, maxRetries) == 0 <==> forall i | 0 <= i < |s| :: !s[i].status.Active?
    ensures forall i | 0 <= i < |s| :: Weight(s[i], maxRetries) <= Potential(s, maxRetries)
  {
    hide Tries;
    if s != [] {
      var n := |s| - 1;
      PotentialBounds(s[..n], maxRetries);
      TriesNext(n, maxRetries);
    }
  }

  /** Nothing expires while the call lasts: its clock stays in [t0, t1], no cooling key is due by t1,
      and every cooldown is longer than the call. A caller can bound the call's length beforehand. */
  ghost predicate Quiet(r: Rotator, w: World, t0: real, t1: real) {
    && (forall n :: t0 <= w.clock(n).now <= t1 && t0 <= w.clock(n).at <= t1)
    && CoolPast(r, t1) && r.cooldown > t1 - t0
    && forall n, i :: w.reply(n, i).TooMany? && w.reply(n, i).retryAfter.Some? ==> w.reply(n, i).retryAfter.value > t1 - t0
  }

  ghost predicate CoolPast(r: Rotator, t1: real) {
    forall i | 0 <= i < |r.states| && r.states[i].status.Cooling? :: r.states[i].cooldownUntil > t1
  }

  lemma NothingExpires(r: Rotator, now: real, t1: real)
    requires CoolPast(r, t1) && now <= t1
    ensures r.Refreshed(now) == r
  {
    assert r.Refreshed(now).states == r.states;
  }

  /** In a quiet call an attempt touches only its own key, counts one request, and, if it fails,
      lowers that key's weight. */
  lemma AttemptLowers(a: Attempt, n: nat, w: World, maxRetries: nat, t0: real, t1: real)
    requires IsAttempt(a, n, w, maxRetries) && Quiet(a.before, w, t0, t1)
    ensures |a.after.states| == |a.before.states| && a.after.Valid() && Quiet(a.after, w, t0, t1)
    ensures a.idx < |a.before.states| && a.before.states[a.idx].status.Active?
    ensures a.after.states == a.before.states[a.idx := a.after.states[a.idx]]
    ensures a.after.states[a.idx].requests == a.before.states[a.idx].requests + 1
    ensures IsFailure(w.reply(n, a.idx))
      ==> Weight(a.after.states[a.idx], maxRetries) < Weight(a.before.states[a.idx], maxRetries)
    ensures w.reply(n, a.idx).Failed? && (a.before.states[a.idx].failures <= maxRetries || maxRetries == 0)
      ==> Weight(a.after.states[a.idx], maxRetries) == Weight(a.before.states[a.idx], maxRetries) - 1
          && !a.after.states[a.idx].status.Disabled?
          && (a.after.states[a.idx].status.Active? ==> a.after.states[a.idx].failures <= maxRetries)
  {
    NothingExpires(a.before, w.clock(n).now, t1);
    var h := a.before.Hand(a.idx);
    OwnPosition(h, a.idx);
    var c := w.clock(n);
    EffectIsLocal(h, a.idx, w.reply(n, a.idx), c.at, maxRetries);
  }

  lemma OwnPosition(r: Rotator, i: nat)
    requires r.Valid() && i < |r.states|
    ensures r.Position(r.states[i].key) == i
  {
  }

  lemma EffectIsLocal(r: Rotator, idx: nat, reply: Reply, at: real, maxRetries: nat)
    requires r.Valid() && idx < |r.states|
    ensures var e := Effect(r, idx, reply, at, maxRetries);
      |e.states| == |r.states| && e.Valid() && e.cooldown == r.cooldown
      && e.states == r.states[idx := e.states[idx]]
      && e.states[idx] == match reply
         case Answer => Reported(r.states[idx], Success, at, r.cooldown)
         case TooMany(after) => Reported(r.states[idx], RateLimited(after), at, r.cooldown)
         case Refused(reason) => Reported(r.states[idx], Unauthorized(reason), at, r.cooldown)
         case Failed(reason) =>
           (var f := Reported(r.states[idx], ServerError(reason), at, r.cooldown);
            if f.failures > maxRetries then Reported(f, CoolDown(None), at, r.cooldown) else f)
         case Other => r.states[idx]
  {
    OwnPosition(r, idx);
    if reply.Failed? { OwnPosition(r.After(r.states[idx].key, ServerError(reply.reason), at), idx); }
  }

  /** What is left of the potential after failed attempts, in all and per key. */
  lemma {:induction false} FailuresSpend(r: Rotator, log: seq<Attempt>, w: World, maxRetries: nat, t0: real, t1: real, k: nat)
    requires r.Valid() && Quiet(r, w, t0, t1) && IsLog(r, log, w, maxRetries)
    requires k <= |log| && forall n | 0 <= n < k :: IsFailure(w.reply(n, log[n].idx))
    ensures var end := Last(r, log[..k]);
      |end.states| == |r.states| && end.Valid() && Quiet(end, w, t0, t1)
      && Potential(end.states, maxRetries) + k <= Potential(r.states, maxRetries)
      && forall i | 0 <= i < |r.states| ::
        end.states[i].requests >= r.states[i].requests
        && Weight(end.states[i], maxRetries) + (end.states[i].requests - r.states[i].requests) <= Weight(r.states[i], maxRetries)
  {
    hide Quiet, IsAttempt, Rotator.Valid, Weight, Potential, IsFailure;
    if k > 0 {
      FailuresSpend(r, log, w, maxRetries, t0, t1, k - 1);
      var a := log[k - 1];
      assert IsAttempt(a, k - 1, w, maxRetries) && a.before == Last(r, log[..k - 1]);
      AttemptLowers(a, k - 1, w, maxRetries, t0, t1);
      PotentialUpdate(a.before.states, a.idx, a.after.states[a.idx], maxRetries);
      assert Last(r, log[..k]) == a.after;
    }
  }

  /** A quiet call tries each key at most R + 1 times, and fewer if it has failed before. */
  lemma TriesPerKey(r: Rotator, log: seq<Attempt>, w: World, maxRetries: nat, result: Result, end: Rotator,
                    t0: real, t1: real, i: nat)
    requires r.Valid() && Quiet(r, w, t0, t1) && IsCall(r, log, w, maxRetries, result, end) && i < |r.states|
    ensures i < |end.states| && r.states[i].requests <= end.states[i].requests
    ensures end.states[i].requests - r.states[i].requests <= Weight(r.states[i], maxRetries) <= maxRetries + 1
  {
    hide Quiet, IsAttempt, Rotator.Valid, Potential, Weight, IsCall, Budget;
    WeightBounds(r.states[i], maxRetries);
    if result.KeysExhausted? {
      ExhaustedEnd(r, log, w, maxRetries, result.retryAfter, end, t0, t1);
      assert log[..|log|] == log;
    } else {
      EndedEnd(r, log, w, maxRetries, result, end);
      var n := |log| - 1;
      FailuresSpend(r, log, w, maxRetries, t0, t1, n);
      LastTry(r, log, w, maxRetries, t0, t1, i);
    }
  }

  lemma WeightBounds(s: KeyState, maxRetries: nat)
    ensures Weight(s, maxRetries) <= maxRetries + 1
    ensures s.status.Active? ==> Weight(s, maxRetries) >= 1
  {
  }

  /** A call that gives up ends where its failed attempts left it. */
  lemma ExhaustedEnd(r: Rotator, log: seq<Attempt>, w: World, maxRetries: nat, retry: Option<real>, end: Rotator,
                     t0: real, t1: real)
    requires r.Valid() && Quiet(r, w, t0, t1) && IsCall(r, log, w, maxRetries, KeysExhausted(retry), end)
    ensures IsLog(r, log, w, maxRetries) && AllFailed(log, w) && end == Last(r, log)
    ensures |end.states| == |r.states| && forall i | 0 <= i < |r.states| ::
      end.states[i].requests >= r.states[i].requests
      && Weight(end.states[i], maxRetries) + (end.states[i].requests - r.states[i].requests) <= Weight(r.states[i], maxRetries)
  {
    hide IsAttempt, Rotator.Valid, Potential, Weight, IsFailure, IsLog;
    FailuresSpend(r, log, w, maxRetries, t0, t1, |log|);
    assert log[..|log|] == log;
    if |log| < Budget(r, maxRetries) { NothingExpires(Last(r, log), w.clock(|log|).now, t1); }
  }

  /** A call that is answered, or ends in another status, ends at its last attempt, the others failing. */
  lemma EndedEnd(r: Rotator, log: seq<Attempt>, w: World, maxRetries: nat, result: Result, end: Rotator)
    requires IsCall(r, log, w, maxRetries, result, end) && !result.KeysExhausted?
    ensures log != [] && IsLog(r, log, w, maxRetries) && end == Last(r, log)
    ensures forall n | 0 <= n < |log| - 1 :: IsFailure(w.reply(n, log[n].idx))
  {
    hide IsAttempt, IsFailure;
  }

  /** The last attempt counts one more request, for a key that still had weight. */
  lemma LastTry(r: Rotator, log: seq<Attempt>, w: World, maxRetries: nat, t0: real, t1: real, i: nat)
    requires log != [] && IsLog(r, log, w, maxRetries) && Quiet(Last(r, log[..|log| - 1]), w, t0, t1)
    requires i < |Last(r, log[..|log| - 1]).states|
    ensures var before, end := Last(r, log[..|log| - 1]), Last(r, log); (
      && i < |end.states| && before.states[i].requests <= end.states[i].requests
      && end.states[i].requests - before.states[i].requests <= Weight(before.states[i], maxRetries))
  {
    hide Quiet, IsAttempt, Rotator.Valid, Weight, IsFailure;
    var n := |log| - 1;
    assert IsAttempt(log[n], n, w, maxRetries) && log[n].before == Last(r, log[..n]);
    AttemptLowers(log[n], n, w, maxRetries, t0, t1);
    WeightBounds(log[n].before.states[i], maxRetries);
  }

  /** A quiet call that gives up leaves no key active, whether `acquire` failed or the budget ran out. */
  lemma ExhaustedMeansNoneActive(r: Rotator, log: seq<Attempt>, w: World, maxRetries: nat, retry: Option<real>,
                                 end: Rotator, t0: real, t1: real)
    requires r.Valid() && Quiet(r, w, t0, t1) && IsCall(r, log, w, maxRetries, KeysExhausted(retry), end)
    ensures end.NoneActive()
  {
    FailuresSpend(r, log, w, maxRetries, t0, t1, |log|);
    assert log[..|log|] == log;
    PotentialBounds(r.states, maxRetries);
    PotentialBounds(Last(r, log).states, maxRetries);
  }

  // ----- a healthy key is reached -----

  /** How many steps the cursor takes from `c` to `i`. */
  function Distance(c: nat, n: nat, i: nat): nat
    requires c < n && i < n
  {
    if i >= c then i - c else i + n - c
  }

  lemma OneStep(c: nat, n: nat, i: nat)
    requires c < n && i < n && i != c
    ensures Distance(Slot(c, n, 1), n, i) == Distance(c, n, i) - 1
  {
    if c + 1 == n { assert Slot(c, n, 1) == 0; } else { assert Slot(c, n, 1) == c + 1; }
  }

  /** The failures a key can take before the cursor leaves it, whatever its status. */
  function Patience(failures: nat, maxRetries: nat): nat {
    if failures <= maxRetries then maxRetries + 1 - failures else 1
  }

  /** The patience of the keys from position `c`, circularly, up to but not including key `h`. */
  function Toward(states: seq<KeyState>, c: nat, h: nat, maxRetries: nat): nat
    requires c < |states| && h < |states|
    decreases Distance(c, |states|, h)
  {
    if c == h then 0
    else
      OneStep(c, |states|, h);
      Patience(states[c].failures, maxRetries) + Toward(states, Slot(c, |states|, 1), h, maxRetries)
  }

  lemma {:induction false} TowardBound(states: seq<KeyState>, c: nat, h: nat, maxRetries: nat)
    requires c < |states| && h < |states|
    ensures Toward(states, c, h, maxRetries) <= Tries(Distance(c, |states|, h), maxRetries)
    ensures Toward(states, c, h, maxRetries) <= Tries(|states| - 1, maxRetries)
    decreases Distance(c, |states|, h)
  {
    hide Slot, Tries;
    if c != h {
      OneStep(c, |states|, h);
      TowardBound(states, Slot(c, |states|, 1), h, maxRetries);
      TriesNext(Distance(c, |states|, h) - 1, maxRetries);
    }
    TriesMono(Distance(c, |states|, h), |states| - 1, maxRetries);
  }

  /** Only the failures of the keys on the way count. */
  lemma {:induction false} TowardAgrees(s: seq<KeyState>, t: seq<KeyState>, c: nat, h: nat, maxRetries: nat)
    requires c < |s| == |t| && h < |s|
    requires forall i | 0 <= i < |s| && Distance(c, |s|, i) < Distance(c, |s|, h) :: s[i].failures == t[i].failures
    ensures Toward(s, c, h, maxRetries) == Toward(t, c, h, maxRetries)
    decreases Distance(c, |s|, h)
  {
    hide Slot, Patience;
    if c != h {
      var c1 := Slot(c, |s|, 1);
      OneStep(c, |s|, h);
      forall i | 0 <= i < |s| && Distance(c1, |s|, i) < Distance(c1, |s|, h) ensures s[i].failures == t[i].failures {
        if i == c { BackAgain(c, |s|); } else { OneStep(c, |s|, i); }
      }
      TowardAgrees(s, t, c1, h, maxRetries);
    }
  }

  lemma BackAgain(c: nat, n: nat)
    requires c < n
    ensures Distance(Slot(c, n, 1), n, c) == n - 1
  {
    if c + 1 == n { assert Slot(c, n, 1) == 0; } else { assert Slot(c, n, 1) == c + 1; }
  }

  /** Passing over keys that are not active brings the cursor nearer to the active key `h`. */
  lemma {:induction false} PassingNears(r: Rotator, offset: nat, h: nat, maxRetries: nat)
    requires r.cursor < |r.states| && h < |r.states| && r.states[h].status.Active? && offset < |r.states|
    requires forall o | 0 <= o < offset :: !r.states[Slot(r.cursor, |r.states|, o)].status.Active?
    ensures Toward(r.states, Slot(r.cursor, |r.states|, offset), h, maxRetries) <= Toward(r.states, r.cursor, h, maxRetries)
  {
    hide Slot, Patience;
    NextSlot(r.cursor, |r.states|, offset);
    if offset > 0 {
      PassingNears(r, offset - 1, h, maxRetries);
    }
  }

  lemma NextSlot(c: nat, n: nat, offset: nat)
    requires c < n && offset < n
    ensures Slot(c, n, 0) == c
    ensures offset > 0 ==> Slot(c, n, offset) == Slot(Slot(c, n, offset - 1), n, 1)
  {
    SlotIs(c, n, 0);
    if offset > 0 {
      SlotIs(c, n, offset - 1);
      SlotIs(c, n, offset);
      SlotIs(Slot(c, n, offset - 1), n, 1);
    }
  }

  lemma SlotIs(c: nat, n: nat, offset: nat)
    requires c < n && offset < n
    ensures Slot(c, n, offset) == if c + offset < n then c + offset else c + offset - n
  {
    if c + offset >= n { WrapOnce(c + offset - n, n); }
  }

  /** Handing out key `idx` passes over keys that are not active. */
  lemma HandNears(r: Rotator, now: real, idx: nat, h: nat, maxRetries: nat)
    requires r.Valid() && idx < |r.states| && h < |r.states| && r.states[h].status.Active?
    requires exists offset :: r.Refreshed(now).FirstActive(idx, offset)
    ensures var handed := r.Refreshed(now).Hand(idx);
      handed.Valid() && handed.cursor == idx && |handed.states| == |r.states| && handed.states[h].status.Active?
      && Toward(handed.states, idx, h, maxRetries) <= Toward(r.states, r.cursor, h, maxRetries)
  {
    hide Slot;
    var f := r.Refreshed(now);
    assert f.states[h] == Refresh(r.states[h], now);
    var offset :| f.FirstActive(idx, offset);
    PassingNears(f, offset, h, maxRetries);
    TowardAgrees(r.states, f.states, f.cursor, h, maxRetries);
    TowardAgrees(f.states, f.Hand(idx).states, idx, h, maxRetries);
  }

  /** A failed attempt passes over keys and spends the patience of another key than `h`: it tries that key
      once less, or moves past it. */
  lemma AttemptNears(a: Attempt, n: nat, w: World, maxRetries: nat, h: nat)
    requires IsAttempt(a, n, w, maxRetries) && IsFailure(w.reply(n, a.idx))
    requires h < |a.before.states| && a.before.states[h].status.Active? && !IsFailure(w.reply(n, h))
    ensures a.after.Valid() && |a.after.states| == |a.before.states| && a.after.states[h].status.Active?
    ensures Toward(a.after.states, a.after.cursor, h, maxRetries) < Toward(a.before.states, a.before.cursor, h, maxRetries)
  {
    hide Effect, Toward, Rotator.Valid, IsFailure, Rotator.FirstActive;
    HandNears(a.before, w.clock(n).now, a.idx, h, maxRetries);
    EffectNears(a.before.Refreshed(w.clock(n).now).Hand(a.idx), a.idx, w.reply(n, a.idx), w.clock(n).at, maxRetries, h);
  }

  lemma EffectNears(r: Rotator, idx: nat, reply: Reply, at: real, maxRetries: nat, h: nat)
    requires r.Valid() && r.cursor == idx < |r.states| && IsFailure(reply)
    requires h < |r.states| && h != idx && r.states[h].status.Active?
    ensures var e := Effect(r, idx, reply, at, maxRetries);
      e.Valid() && |e.states| == |r.states| && e.states[h].status.Active?
      && Toward(e.states, e.cursor, h, maxRetries) < Toward(r.states, idx, h, maxRetries)
  {
    EffectIsLocal(r, idx, reply, at, maxRetries);
    EffectMoves(r, idx, reply, at, maxRetries);
    OneStep(idx, |r.states|, h);
    BackAgain(idx, |r.states|);
    CursorIn(r);
    hide Effect, Slot, IsFailure, Reported, Rotator.Valid;
    TowardAgrees(r.states, Effect(r, idx, reply, at, maxRetries).states, Slot(idx, |r.states|, 1), h, maxRetries);
  }

  lemma CursorIn(r: Rotator)
    requires r.Valid()
    ensures r.cursor < |r.states|
  {
  }

  /** After a failure the cursor stays on a key that has retries left, and otherwise moves on. */
  lemma EffectMoves(r: Rotator, idx: nat, reply: Reply, at: real, maxRetries: nat)
    requires r.Valid() && idx < |r.states| && r.cursor == idx && IsFailure(reply)
    ensures var e := Effect(r, idx, reply, at, maxRetries);
      e.cursor == (if reply.Failed? && r.states[idx].failures < maxRetries then idx else Slot(idx, |r.states|, 1))
      && idx < |e.states| && e.states[idx].failures == r.states[idx].failures + 1
  {
    OwnPosition(r, idx);
    if reply.Failed? { OwnPosition(r.After(r.states[idx].key, ServerError(reply.reason), at), idx); }
  }

  lemma {:induction false} FailuresNear(r: Rotator, log: seq<Attempt>, w: World, maxRetries: nat, h: nat, k: nat)
    requires r.Valid() && IsLog(r, log, w, maxRetries)
    requires k <= |log| && forall n | 0 <= n < k :: IsFailure(w.reply(n, log[n].idx))
    requires h < |r.states| && r.states[h].status.Active? && NeverFails(w, h)
    ensures var end := Last(r, log[..k]);
      |end.states| == |r.states| && end.Valid() && end.states[h].status.Active?
      && Toward(end.states, end.cursor, h, maxRetries) + k <= Toward(r.states, r.cursor, h, maxRetries)
  {
    hide IsAttempt, IsFailure, Toward;
    if k > 0 {
      FailuresNear(r, log, w, maxRetries, h, k - 1);
      var a := log[k - 1];
      assert IsAttempt(a, k - 1, w, maxRetries) && a.before == Last(r, log[..k - 1]);
      AttemptNears(a, k - 1, w, maxRetries, h);
      assert Last(r, log[..k]) == a.after;
    }
  }

  /** One active key that never fails is enough, whatever the other keys do and whatever cooldowns expire
      meanwhile: the call ends with a reply, after at most the patience of the keys before that key and one
      more attempt. */
  lemma HealthyKeyAnswers(r: Rotator, log: seq<Attempt>, w: World, maxRetries: nat, result: Result, end: Rotator, h: nat)
    requires r.Valid() && IsCall(r, log, w, maxRetries, result, end)
    requires h < |r.states| && r.states[h].status.Active? && NeverFails(w, h)
    ensures !result.KeysExhausted? && ((forall n, i :: !w.reply(n, i).Other?) ==> result == Response)
    ensures |log| <= Toward(r.states, r.cursor, h, maxRetries) + 1 <= Tries(|r.states| - 1, maxRetries) + 1
  {
    hide NeverFails, IsAttempt, IsFailure, Toward, IsLog, Rotator.Valid, Tries, IsCall;
    TowardAtMost(r, h, maxRetries);
    if result.KeysExhausted? {
      CannotExhaust(r, log, w, maxRetries, result.retryAfter, end, h);
    } else {
      EndedEnd(r, log, w, maxRetries, result, end);
      FailuresNear(r, log, w, maxRetries, h, |log| - 1);
      if result.HttpError? { EndsInReply(r, log, w, maxRetries, end); }
    }
  }

  ghost predicate NeverFails(w: World, h: nat) { forall n :: !IsFailure(w.reply(n, h)) }

  lemma CannotExhaust(r: Rotator, log: seq<Attempt>, w: World, maxRetries: nat, retry: Option<real>, end: Rotator, h: nat)
    requires r.Valid() && h < |r.states| && r.states[h].status.Active? && NeverFails(w, h)
    ensures !IsCall(r, log, w, maxRetries, KeysExhausted(retry), end)
  {
    if IsCall(r, log, w, maxRetries, KeysExhausted(retry), end) {
      hide NeverFails, IsAttempt, IsFailure, Toward, IsLog, Rotator.Valid, Tries, Budget, IsCall, Rotator.Acquires;
      TowardAtMost(r, h, maxRetries);
      ExhaustedCall(r, log, w, maxRetries, retry, end);
      FailuresNear(r, log, w, maxRetries, h, |log|);
      TakeAll(log);
      BudgetIs(r, maxRetries);
      StillActive(Last(r, log), w.clock(|log|), end, retry, h);
    }
  }

  lemma TowardAtMost(r: Rotator, h: nat, maxRetries: nat)
    requires r.Valid() && h < |r.states|
    ensures r.cursor < |r.states| && Toward(r.states, r.cursor, h, maxRetries) <= Tries(|r.states| - 1, maxRetries)
  {
    TowardBound(r.states, r.cursor, h, maxRetries);
  }

  lemma ExhaustedCall(r: Rotator, log: seq<Attempt>, w: World, maxRetries: nat, retry: Option<real>, end: Rotator)
    requires IsCall(r, log, w, maxRetries, KeysExhausted(retry), end)
    ensures IsLog(r, log, w, maxRetries) && AllFailed(log, w)
    ensures var c := w.clock(|log|); |log| == Budget(r, maxRetries) || Last(r, log).Acquires(c.now, c.later, end, Exhausted(retry))
  {
    hide IsAttempt, IsFailure, Rotator.Acquires;
  }

  lemma EndsInReply(r: Rotator, log: seq<Attempt>, w: World, maxRetries: nat, end: Rotator)
    requires IsCall(r, log, w, maxRetries, HttpError, end)
    ensures exists n, i :: w.reply(n, i).Other?
  {
    hide IsAttempt, IsFailure, IsLog;
  }

  lemma BudgetIs(r: Rotator, maxRetries: nat)
    requires r.Valid()
    ensures Budget(r, maxRetries) == Tries(|r.states| - 1, maxRetries) + (maxRetries + 1)
  {
    TriesNext(|r.states| - 1, maxRetries);
  }

  lemma StillActive(r: Rotator, c: Clock, end: Rotator, retry: Option<real>, h: nat)
    requires h < |r.states| && r.states[h].status.Active?
    ensures !r.Acquires(c.now, c.later, end, Exhausted(retry))
  {
    var now := c.now;
    assert r.Refreshed(now).states[h] == Refresh(r.states[h], now);
  }

  /** In a quiet call the potential of the active keys bounds the attempts too. */
  lemma QuietCallIsShort(r: Rotator, log: seq<Attempt>, w: World, maxRetries: nat, result: Result, end: Rotator,
                         t0: real, t1: real)
    requires r.Valid() && Quiet(r, w, t0, t1) && IsCall(r, log, w, maxRetries, result, end)
    ensures |log| <= Potential(r.states, maxRetries) <= Budget(r, maxRetries)
  {
    hide Quiet, IsAttempt, Rotator.Valid, Potential, Weight, IsCall;
    PotentialAtMost(r, maxRetries);
    if result.KeysExhausted? {
      ExhaustedEnd(r, log, w, maxRetries, result.retryAfter, end, t0, t1);
      FailuresSpend(r, log, w, maxRetries, t0, t1, |log|);
    } else {
      EndedEnd(r, log, w, maxRetries, result, end);
      var n := |log| - 1;
      FailuresSpend(r, log, w, maxRetries, t0, t1, n);
      assert IsAttempt(log[n], n, w, maxRetries) && log[n].before == Last(r, log[..n]);
      AttemptLowers(log[n], n, w, maxRetries, t0, t1);
      WeightBounds(log[n].before.states[log[n].idx], maxRetries);
      PotentialBounds(log[n].before.states, maxRetries);
    }
  }

  // ----- what giving up reports -----

  /** The call reports no wait although some key is not disabled. */
  ghost predicate HidesWait(r: Rotator, log: seq<Attempt>, w: World, maxRetries: nat, end: Rotator) {
    && IsCall(r, log, w, maxRetries, KeysExhausted(None), end)
    && exists i :: 0 <= i < |end.states| && !end.states[i].status.Disabled?
  }

  /** Every key is active and has its whole weight of R + 1 left. */
  ghost predicate IsFull(r: Rotator, maxRetries: nat) {
    forall i | 0 <= i < |r.states| ::
      r.states[i].status.Active? && (r.states[i].failures == 0 || maxRetries == 0)
  }

  lemma WeightIsFull(s: KeyState, maxRetries: nat)
    ensures Weight(s, maxRetries) == maxRetries + 1 <==> s.status.Active? && (s.failures == 0 || maxRetries == 0)
  {
  }

  lemma {:induction false} FullPotential(s: seq<KeyState>, maxRetries: nat)
    ensures Potential(s, maxRetries) == Tries(|s|, maxRetries)
      <==> forall i | 0 <= i < |s| :: Weight(s[i], maxRetries) == maxRetries + 1
  {
    hide Weight, Tries;
    if s == [] {
      NoTries(maxRetries);
    } else {
      var n := |s| - 1;
      FullPotential(s[..n], maxRetries);
      PotentialBounds(s[..n], maxRetries);
      WeightBounds(s[n], maxRetries);
      TriesNext(n, maxRetries);
      assert forall i | 0 <= i < n :: s[..n][i] == s[i];
    }
  }

  lemma FullIffPotential(r: Rotator, maxRetries: nat)
    ensures IsFull(r, maxRetries) <==> Potential(r.states, maxRetries) == Budget(r, maxRetries)
  {
    hide Weight, Potential;
    FullPotential(r.states, maxRetries);
    forall i | 0 <= i < |r.states|
      ensures Weight(r.states[i], maxRetries) == maxRetries + 1
        <==> r.states[i].status.Active? && (r.states[i].failures == 0 || maxRetries == 0)
    {
      WeightIsFull(r.states[i], maxRetries);
    }
  }

  /** A quiet call that hides the wait has spent its whole budget, so it began with full weights. */
  lemma HiddenMeansFull(r: Rotator, log: seq<Attempt>, w: World, maxRetries: nat, end: Rotator, t0: real, t1: real)
    requires r.Valid() && Quiet(r, w, t0, t1) && HidesWait(r, log, w, maxRetries, end)
    ensures IsFull(r, maxRetries) && |log| == Budget(r, maxRetries)
  {
    hide Quiet, IsAttempt, Rotator.Valid, Weight, Potential, IsLog, Budget, IsFull, Rotator.Acquires;
    ExhaustedEnd(r, log, w, maxRetries, None, end, t0, t1);
    FailuresSpend(r, log, w, maxRetries, t0, t1, |log|);
    assert log[..|log|] == log;
    if |log| < Budget(r, maxRetries) {
      var c := w.clock(|log|);
      NoRetryAfterMeansDisabled(Last(r, log), c.now, c.later, end, None);
    }
    PotentialAtMost(r, maxRetries);
    FullIffPotential(r, maxRetries);
  }

  lemma PotentialAtMost(r: Rotator, maxRetries: nat)
    ensures Potential(r.states, maxRetries) <= Budget(r, maxRetries)
  {
    PotentialBounds(r.states, maxRetries);
  }

  /** When every request of a client with full weights fails with 5xx or in transport, the whole budget is
      spent and the call reports no retry_after, although every key is merely cooling. */
  lemma OutageHidesRetryAfter(r: Rotator, log: seq<Attempt>, w: World, maxRetries: nat, result: Result, end: Rotator,
                              t0: real, t1: real)
    requires r.Valid() && IsFull(r, maxRetries) && Quiet(r, w, t0, t1) && IsCall(r, log, w, maxRetries, result, end)
    requires forall n, i :: w.reply(n, i).Failed?
    ensures result == KeysExhausted(None)
    ensures |end.states| == |r.states| && forall i | 0 <= i < |end.states| :: end.states[i].status.Cooling?
  {
    FullIffPotential(r, maxRetries);
    OutageSpendsOne(r, log, w, maxRetries, t0, t1, |log|);
    assert log[..|log|] == log;
    PotentialBounds(Last(r, log).states, maxRetries);
    if |log| < Budget(r, maxRetries) {
      NothingExpires(Last(r, log), w.clock(|log|).now, t1);
      assert false;
    }
  }

  /** An active key's failures, when a failure is sure to take one off its weight. */
  predicate Spendable(s: KeyState, maxRetries: nat) {
    !s.status.Disabled? && (s.status.Active? ==> s.failures <= maxRetries || maxRetries == 0)
  }

  lemma FullIs(r: Rotator, maxRetries: nat)
    requires IsFull(r, maxRetries)
    ensures forall i | 0 <= i < |r.states| :: Spendable(r.states[i], maxRetries)
  {
  }

  lemma {:induction false} OutageSpendsOne(r: Rotator, log: seq<Attempt>, w: World, maxRetries: nat,
                                           t0: real, t1: real, k: nat)
    requires r.Valid() && IsFull(r, maxRetries) && Quiet(r, w, t0, t1) && IsLog(r, log, w, maxRetries) && k <= |log|
    requires forall n, i :: w.reply(n, i).Failed?
    ensures var end := Last(r, log[..k]);
      |end.states| == |r.states| && end.Valid() && Quiet(end, w, t0, t1)
      && Potential(end.states, maxRetries) + k == Potential(r.states, maxRetries)
      && forall i | 0 <= i < |end.states| :: Spendable(end.states[i], maxRetries)
  {
    hide Quiet, IsAttempt, Rotator.Valid, Weight, Potential, IsFull;
    FullIs(r, maxRetries);
    if k > 0 {
      OutageSpendsOne(r, log, w, maxRetries, t0, t1, k - 1);
      var a := log[k - 1];
      assert IsAttempt(a, k - 1, w, maxRetries) && a.before == Last(r, log[..k - 1]);
      AttemptLowers(a, k - 1, w, maxRetries, t0, t1);
      PotentialUpdate(a.before.states, a.idx, a.after.states[a.idx], maxRetries);
      assert Last(r, log[..k]) == a.after;
    }
  }

  /** An outage that takes no time. */
  function Outage(): World { World(_ => Clock(0.0, 0.0, 0.0), (_, _) => Failed("http_503")) }

  lemma OutageIsQuiet(r: Rotator, maxRetries: nat)
    requires IsFull(r, maxRetries) && r.cooldown > 0.0
    ensures Quiet(r, Outage(), 0.0, 0.0) && forall n, i :: Outage().reply(n, i).Failed?
  {
  }

  /** Some key is active, so one is the first from the cursor. */
  lemma {:induction false} FirstActiveExists(r: Rotator, offset: nat) returns (first: nat)
    requires r.Valid() && offset < |r.states| && r.states[Slot(r.cursor, |r.states|, offset)].status.Active?
    ensures r.FirstActive(Slot(r.cursor, |r.states|, first), first)
  {
    hide Slot;
    if o: nat :| o < offset && r.states[Slot(r.cursor, |r.states|, o)].status.Active? {
      first := FirstActiveExists(r, o);
    } else {
      first := offset;
    }
  }

  /** The next attempt of a call in which some key is active after the refresh. */
  lemma FirstAttempt(r: Rotator, n: nat, w: World, maxRetries: nat) returns (a: Attempt)
    requires r.Valid() && !r.Refreshed(w.clock(n).now).NoneActive()
    ensures a.before == r && IsAttempt(a, n, w, maxRetries)
  {
    hide Slot, Effect;
    var f := r.Refreshed(w.clock(n).now);
    assert f.Valid();
    var i :| 0 <= i < |f.states| && f.states[i].status.Active?;
    var offset := Reached(f.cursor, |f.states|, i);
    var first := FirstActiveExists(f, offset);
    var idx := Slot(f.cursor, |f.states|, first);
    a := Attempt(r, idx, Effect(f.Hand(idx), idx, w.reply(n, idx), w.clock(n).at, maxRetries));
    assert r.Acquires(w.clock(n).now, w.clock(n).later, f.Hand(idx), Got(idx));
  }

  /** The same in a quiet call, where the refresh changes nothing. */
  lemma NextAttempt(r: Rotator, n: nat, w: World, maxRetries: nat, t1: real) returns (a: Attempt)
    requires r.Valid() && !r.NoneActive() && CoolPast(r, t1) && w.clock(n).now <= t1
    ensures a.before == r && IsAttempt(a, n, w, maxRetries)
  {
    NothingExpires(r, w.clock(n).now, t1);
    a := FirstAttempt(r, n, w, maxRetries);
  }

  lemma {:induction false} OutageLog(r: Rotator, maxRetries: nat, k: nat) returns (log: seq<Attempt>)
    requires r.Valid() && IsFull(r, maxRetries) && r.cooldown > 0.0 && k <= Budget(r, maxRetries)
    ensures |log| == k && IsLog(r, log, Outage(), maxRetries) && AllFailed(log, Outage())
  {
    hide Rotator.Valid, IsFull, Potential, IsLog, AllFailed, IsAttempt, Budget;
    var w := Outage();
    OutageIsQuiet(r, maxRetries);
    if k == 0 {
      log := [];
      EmptyLog(r, w, maxRetries);
      NoneFailed(w);
    } else {
      log := OutageLog(r, maxRetries, k - 1);
      assert log[..|log|] == log;
      OutageSpendsOne(r, log, w, maxRetries, 0.0, 0.0, k - 1);
      FullIffPotential(r, maxRetries);
      PotentialBounds(Last(r, log).states, maxRetries);
      var a := NextAttempt(Last(r, log), k - 1, w, maxRetries, 0.0);
      LogSnoc(r, log, a, w, maxRetries);
      AllFailedSnoc(log, a, w);
      log := log + [a];
    }
  }

  lemma NoneFailed(w: World)
    ensures AllFailed([], w)
  {
  }

  lemma AllFailedSnoc(log: seq<Attempt>, a: Attempt, w: World)
    requires AllFailed(log, w) && IsFailure(w.reply(|log|, a.idx))
    ensures AllFailed(log + [a], w)
  {
  }

  ghost predicate SomeQuietCallHidesWait(r: Rotator, maxRetries: nat) {
    exists log, w, end, t0, t1 :: Quiet(r, w, t0, t1) && HidesWait(r, log, w, maxRetries, end)
  }

  /** Exactly when the promise about retry_after can fail in a quiet call, read off the rotator before the
      call: every key is active, and has not failed yet or has no retries to lose. (A cooldown that is not
      positive leaves no call quiet.) */
  lemma WaitHiddenIff(r: Rotator, maxRetries: nat)
    requires r.Valid()
    ensures SomeQuietCallHidesWait(r, maxRetries) <==> IsFull(r, maxRetries) && r.cooldown > 0.0
  {
    hide Rotator.Valid, IsFull, Potential, IsLog, AllFailed, HidesWait, Budget;
    if SomeQuietCallHidesWait(r, maxRetries) {
      var log, w, end, t0, t1 :| Quiet(r, w, t0, t1) && HidesWait(r, log, w, maxRetries, end);
      HiddenMeansFull(r, log, w, maxRetries, end, t0, t1);
      assert t0 <= w.clock(0).now <= t1;
    }
    if IsFull(r, maxRetries) && r.cooldown > 0.0 {
      OutageIsQuiet(r, maxRetries);
      var log := OutageLog(r, maxRetries, Budget(r, maxRetries));
      OutageHides(r, log, maxRetries);
    }
  }

  lemma OutageHides(r: Rotator, log: seq<Attempt>, maxRetries: nat)
    requires r.Valid() && IsFull(r, maxRetries) && Quiet(r, Outage(), 0.0, 0.0)
    requires |log| == Budget(r, maxRetries) && IsLog(r, log, Outage(), maxRetries) && AllFailed(log, Outage())
    ensures HidesWait(r, log, Outage(), maxRetries, Last(r, log))
  {
    OutageIsQuiet(r, maxRetries);
    OutageSpendsOne(r, log, Outage(), maxRetries, 0.0, 0.0, |log|);
    assert log[..|log|] == log;
    assert Spendable(Last(r, log).states[0], maxRetries);
  }

  // ----- what giving up reports, cooldowns expiring or not -----

  /** Some call that starts at the given time reports no wait although some key is not disabled. */
  ghost predicate SomeCallHidesWait(r: Rotator, maxRetries: nat, start: real) {
    exists log, w: World, end :: w.clock(0).now == start && HidesWait(r, log, w, maxRetries, end)
  }

  /** Every request is refused with 429 and a Retry-After of 0, at one instant. */
  function Flood(start: real): World { World(_ => Clock(start, start, start), (_, _) => TooMany(Some(0.0))) }

  /** Some key is active, or cooling until a time that has come. */
  ghost predicate Usable(r: Rotator, now: real) { !r.Refreshed(now).NoneActive() }

  /** The next attempt of a flooded call: the key it cools is due again at once. */
  lemma FloodAttempt(r: Rotator, n: nat, maxRetries: nat, start: real) returns (a: Attempt)
    requires r.Valid() && Usable(r, start)
    ensures a.before == r && IsAttempt(a, n, Flood(start), maxRetries)
    ensures |a.after.states| == |r.states| && a.after.Valid() && Usable(a.after, start)
    ensures a.idx < |a.after.states| && !a.after.states[a.idx].status.Disabled?
  {
    var f := r.Refreshed(start);
    a := FirstAttempt(r, n, Flood(start), maxRetries);
    EffectIsLocal(f.Hand(a.idx), a.idx, TooMany(Some(0.0)), start, maxRetries);
    assert a.after.Refreshed(start).states[a.idx] == Refresh(a.after.states[a.idx], start);
  }

  lemma {:induction false} FloodLog(r: Rotator, maxRetries: nat, start: real, k: nat) returns (log: seq<Attempt>)
    requires r.Valid() && Usable(r, start)
    ensures |log| == k && IsLog(r, log, Flood(start), maxRetries) && AllFailed(log, Flood(start))
    ensures Last(r, log).Valid() && |Last(r, log).states| == |r.states| && Usable(Last(r, log), start)
    ensures k > 0 ==> exists i :: 0 <= i < |Last(r, log).states| && !Last(r, log).states[i].status.Disabled?
  {
    hide Rotator.Valid, Usable, IsLog, AllFailed, IsAttempt;
    var w := Flood(start);
    if k == 0 {
      log := [];
      EmptyLog(r, w, maxRetries);
      NoneFailed(w);
    } else {
      log := FloodLog(r, maxRetries, start, k - 1);
      var a := FloodAttempt(Last(r, log), k - 1, maxRetries, start);
      LogSnoc(r, log, a, w, maxRetries);
      AllFailedSnoc(log, a, w);
      log := log + [a];
    }
  }

  /** Over all calls the promise fails from every start from which a request goes out at all: a call that
      starts at a given time can hide the wait iff some key is then active or due. */
  lemma WaitHiddenFromIff(r: Rotator, maxRetries: nat, start: real)
    requires r.Valid()
    ensures SomeCallHidesWait(r, maxRetries, start) <==> !r.Refreshed(start).NoneActive()
  {
    hide Rotator.Valid, IsLog, AllFailed, IsAttempt, HidesWait, Budget;
    if SomeCallHidesWait(r, maxRetries, start) {
      var log, w: World, end :| w.clock(0).now == start && HidesWait(r, log, w, maxRetries, end);
      HiddenMeansUsable(r, log, w, maxRetries, end);
    }
    if Usable(r, start) {
      var log := FloodLog(r, maxRetries, start, Budget(r, maxRetries));
      FloodHides(r, log, maxRetries, start);
    }
  }

  lemma FloodHides(r: Rotator, log: seq<Attempt>, maxRetries: nat, start: real)
    requires r.Valid() && |log| == Budget(r, maxRetries)
    requires IsLog(r, log, Flood(start), maxRetries) && AllFailed(log, Flood(start))
    requires |log| > 0 ==> exists i :: 0 <= i < |Last(r, log).states| && !Last(r, log).states[i].status.Disabled?
    ensures HidesWait(r, log, Flood(start), maxRetries, Last(r, log))
  {
    BudgetIs(r, maxRetries);
    hide IsLog, AllFailed, Budget, Tries;
  }

  lemma HiddenMeansUsable(r: Rotator, log: seq<Attempt>, w: World, maxRetries: nat, end: Rotator)
    requires r.Valid() && HidesWait(r, log, w, maxRetries, end)
    ensures !r.Refreshed(w.clock(0).now).NoneActive()
  {
    BudgetIs(r, maxRetries);
    hide Rotator.Acquires, IsAttempt, Budget, Tries, Rotator.Valid;
    if log == [] {
      StopsAtOnce(r, w.clock(0).now, w.clock(0).later, end);
    } else {
      assert IsAttempt(log[0], 0, w, maxRetries) && log[0].before == Last(r, log[..0]);
      UsedAtOnce(log[0], 0, w, maxRetries);
    }
  }

  /** An `acquire` that fails without a wait leaves every key disabled. */
  lemma StopsAtOnce(r: Rotator, now: real, later: real, end: Rotator)
    requires r.Valid() && r.Acquires(now, later, end, Exhausted(None))
    ensures forall i | 0 <= i < |end.states| :: end.states[i].status.Disabled?
  {
    NoRetryAfterMeansDisabled(r, now, later, end, None);
    assert forall i | 0 <= i < |r.states| :: end.states[i] == Refresh(r.states[i], now);
  }

  lemma UsedAtOnce(a: Attempt, n: nat, w: World, maxRetries: nat)
    requires IsAttempt(a, n, w, maxRetries)
    ensures !a.before.Refreshed(w.clock(n).now).NoneActive()
  {
    hide Slot;
  }

  /** So at some time a call can hide the wait iff some key is not disabled: what was promised for all other
      states holds for none of them. */
  lemma WaitCanHideIff(r: Rotator, maxRetries: nat)
    requires r.Valid()
    ensures (exists start :: SomeCallHidesWait(r, maxRetries, start))
        <==> exists i :: 0 <= i < |r.states| && !r.states[i].status.Disabled?
  {
    hide SomeCallHidesWait, Rotator.Valid;
    if start :| SomeCallHidesWait(r, maxRetries, start) {
      WaitHiddenFromIff(r, maxRetries, start);
      var i :| 0 <= i < |r.states| && r.Refreshed(start).states[i].status.Active?;
      assert r.Refreshed(start).states[i] == Refresh(r.states[i], start);
    }
    if i :| 0 <= i < |r.states| && !r.states[i].status.Disabled? {
      var start := r.states[i].cooldownUntil;
      assert r.Refreshed(start).states[i] == Refresh(r.states[i], start);
      WaitHiddenFromIff(r, maxRetries, start);
    }
  }

  // ----- across calls -----

  /** One caller at a time: an attempt never un-disables a key and counts exactly one request. */
  lemma AttemptKeepsDisabled(a: Attempt, n: nat, w: World, maxRetries: nat, i: nat)
    requires IsAttempt(a, n, w, maxRetries) && i < |a.before.states|
    ensures |a.after.states| == |a.before.states|
    ensures a.before.states[i].status.Disabled? ==> a.after.states[i].status.Disabled?
    ensures a.after.states[i].requests == a.before.states[i].requests + if i == a.idx then 1 else 0
  {
    var r := a.before.Refreshed(w.clock(n).now);
    EffectIsLocal(r.Hand(a.idx), a.idx, w.reply(n, a.idx), w.clock(n).at, maxRetries);
    assert r.states[i] == Refresh(a.before.states[i], w.clock(n).now);
  }

  function Requests(states: seq<KeyState>): nat {
    if states == [] then 0 else Requests(states[..|states| - 1]) + states[|states| - 1].requests
  }

  lemma {:induction false} OneRequestMore(s: seq<KeyState>, t: seq<KeyState>, idx: nat)
    requires |t| == |s| && forall i | 0 <= i < |s| :: t[i].requests == s[i].requests + if i == idx then 1 else 0
    ensures Requests(t) == Requests(s) + if idx < |s| then 1 else 0
  {
    if s != [] {
      var n := |s| - 1;
      assert forall i | 0 <= i < n :: s[..n][i] == s[i] && t[..n][i] == t[i];
      OneRequestMore(s[..n], t[..n], idx);
    }
  }

  /** Over a whole run of attempts, timeouts and expiring cooldowns included: the requests counted grow by
      one per successful `acquire`, and a disabled key stays disabled. */
  lemma {:induction false} AttemptsAreCounted(r: Rotator, log: seq<Attempt>, w: World, maxRetries: nat, k: nat)
    requires r.Valid() && IsLog(r, log, w, maxRetries) && k <= |log|
    ensures var end := Last(r, log[..k]);
      && |end.states| == |r.states| && Requests(end.states) == Requests(r.states) + k
      && forall i | 0 <= i < |r.states| && r.states[i].status.Disabled? :: end.states[i].status.Disabled?
  {
    hide IsAttempt, Rotator.Valid, Requests;
    if k > 0 {
      AttemptsAreCounted(r, log, w, maxRetries, k - 1);
      var a := log[k - 1];
      assert IsAttempt(a, k - 1, w, maxRetries) && a.before == Last(r, log[..k - 1]);
      OwnSlot(a, k - 1, w, maxRetries);
      forall i | 0 <= i < |a.before.states|
        ensures a.after.states[i].requests == a.before.states[i].requests + (if i == a.idx then 1 else 0)
        ensures a.before.states[i].status.Disabled? ==> a.after.states[i].status.Disabled?
      {
        AttemptKeepsDisabled(a, k - 1, w, maxRetries, i);
      }
      OneRequestMore(a.before.states, a.after.states, a.idx);
      assert Last(r, log[..k]) == a.after;
    }
  }

  lemma OwnSlot(a: Attempt, n: nat, w: World, maxRetries: nat)
    requires IsAttempt(a, n, w, maxRetries)
    ensures a.idx < |a.before.states| == |a.after.states|
  {
    AttemptKeepsDisabled(a, n, w, maxRetries, a.idx);
  }

  // ----- consecutive failures -----

  /** The failed attempts with key `i` among the first `k` since its last answer; `before` counts those before. */
  ghost function Streak(before: nat, log: seq<Attempt>, w: World, i: nat, k: nat): nat
    requires k <= |log|
  {
    if k == 0 then before
    else if log[k - 1].idx != i then Streak(before, log, w, i, k - 1)
    else
      var reply := w.reply(k - 1, i);
      if reply.Answer? then 0
      else Streak(before, log, w, i, k - 1) + if IsFailure(reply) then 1 else 0
  }

  lemma AttemptCounts(a: Attempt, n: nat, w: World, maxRetries: nat, i: nat)
    requires IsAttempt(a, n, w, maxRetries) && i < |a.before.states|
    ensures |a.after.states| == |a.before.states| && a.after.Valid()
    ensures a.after.states[i].failures ==
      if i != a.idx then a.before.states[i].failures
      else if w.reply(n, i).Answer? then 0
      else a.before.states[i].failures + if IsFailure(w.reply(n, i)) then 1 else 0
  {
    var r := a.before.Refreshed(w.clock(n).now);
    EffectIsLocal(r.Hand(a.idx), a.idx, w.reply(n, a.idx), w.clock(n).at, maxRetries);
    assert r.states[i] == Refresh(a.before.states[i], w.clock(n).now);
  }

  /** A key's failure count is the length of its streak. */
  lemma {:induction false} FailuresAreStreak(r: Rotator, log: seq<Attempt>, w: World, maxRetries: nat, i: nat, k: nat)
    requires r.Valid() && IsLog(r, log, w, maxRetries) && i < |r.states| && k <= |log|
    ensures var end := Last(r, log[..k]);
      |end.states| == |r.states| && end.Valid() && end.states[i].failures == Streak(r.states[i].failures, log, w, i, k)
  {
    hide IsAttempt, Rotator.Valid, IsFailure;
    if k > 0 {
      FailuresAreStreak(r, log, w, maxRetries, i, k - 1);
      var a := log[k - 1];
      assert IsAttempt(a, k - 1, w, maxRetries) && a.before == Last(r, log[..k - 1]);
      AttemptCounts(a, k - 1, w, maxRetries, i);
      assert Last(r, log[..k]) == a.after;
    }
  }

  /** A whole call: where it begins and ends, and what happened. */
  datatype Call = Call(start: Rotator, log: seq<Attempt>, w: World, result: Result, end: Rotator)

  /** Calls of one client, one after another. */
  ghost predicate AreCalls(calls: seq<Call>, maxRetries: nat) {
    && (forall c | c in calls :: IsCall(c.start, c.log, c.w, maxRetries, c.result, c.end))
    && forall j | 0 < j < |calls| :: calls[j].start == calls[j - 1].end
  }

  /** The streak of key `i` over whole calls. */
  ghost function Streaks(before: nat, calls: seq<Call>, i: nat): nat {
    if calls == [] then before
    else
      var n := |calls| - 1;
      Streak(Streaks(before, calls[..n], i), calls[n].log, calls[n].w, i, |calls[n].log|)
  }

  lemma CallCounts(c: Call, maxRetries: nat, i: nat)
    requires c.start.Valid() && IsCall(c.start, c.log, c.w, maxRetries, c.result, c.end) && i < |c.start.states|
    ensures |c.end.states| == |c.start.states| && c.end.Valid()
    ensures c.end.states[i].failures == Streak(c.start.states[i].failures, c.log, c.w, i, |c.log|)
  {
    hide IsAttempt, IsFailure, Streak, IsLog, Budget;
    CallEnds(c, maxRetries);
    hide IsCall, Rotator.Acquires, Rotator.Valid;
    FailuresAreStreak(c.start, c.log, c.w, maxRetries, i, |c.log|);
    TakeAll(c.log);
    var last := Last(c.start, c.log);
    if c.end != last { RefreshKeeps(last, c.w.clock(|c.log|).now, i); }
  }

  /** A call ends where its log does, or refreshed once more by an `acquire` that failed. */
  lemma CallEnds(c: Call, maxRetries: nat)
    requires IsCall(c.start, c.log, c.w, maxRetries, c.result, c.end)
    ensures IsLog(c.start, c.log, c.w, maxRetries)
    ensures var last := Last(c.start, c.log); c.end == last || c.end == last.Refreshed(c.w.clock(|c.log|).now)
  {
    hide IsAttempt, IsFailure, Rotator.Refreshed, Rotator.NoneActive;
  }

  lemma RefreshKeeps(r: Rotator, now: real, i: nat)
    requires r.Valid() && i < |r.states|
    ensures r.Refreshed(now).Valid() && r.Refreshed(now).states[i].failures == r.states[i].failures
  {
    assert forall j | 0 <= j < |r.states| :: r.Refreshed(now).states[j] == Refresh(r.states[j], now);
  }

  /** Over successive calls, a key's failure count is the number of its failed attempts since its last answer. */
  lemma {:induction false} FailuresAreConsecutive(calls: seq<Call>, maxRetries: nat, i: nat)
    requires calls != [] && AreCalls(calls, maxRetries) && calls[0].start.Valid() && i < |calls[0].start.states|
    ensures var end := calls[|calls| - 1].end;
      |end.states| == |calls[0].start.states| && end.Valid()
      && end.states[i].failures == Streaks(calls[0].start.states[i].failures, calls, i)
  {
    hide IsCall, Streak, Rotator.Valid;
    var n := |calls| - 1;
    assert calls[n] in calls;
    if n > 0 {
      var before := calls[..n];
      assert forall c | c in before :: c in calls;
      FailuresAreConsecutive(before, maxRetries, i);
    } else {
      assert calls[..0] == [];
    }
    CallCounts(calls[n], maxRetries, i);
  }

  /** An answered call leaves the key that answered with its whole weight, if it stays active. */
  lemma AnswerRestores(r: Rotator, log: seq<Attempt>, w: World, maxRetries: nat, end: Rotator)
    requires IsCall(r, log, w, maxRetries, Response, end)
    ensures var i := log[|log| - 1].idx;
      i < |end.states| && end.states[i].failures == 0 && end.states[i].lastError == None
      && end.states[i].status.Active? && Weight(end.states[i], maxRetries) == maxRetries + 1
  {
    hide IsAttempt, Weight;
    var n := |log| - 1;
    assert IsAttempt(log[n], n, w, maxRetries);
    hide IsLog;
    AnswerClears(log[n], n, w, maxRetries);
  }

  lemma AnswerClears(a: Attempt, n: nat, w: World, maxRetries: nat)
    requires IsAttempt(a, n, w, maxRetries) && w.reply(n, a.idx).Answer?
    ensures a.idx < |a.after.states|
    ensures var s := a.after.states[a.idx];
      s.failures == 0 && s.lastError == None && s.status.Active? && Weight(s, maxRetries) == maxRetries + 1
  {
    hide Effect, Slot;
    var f := a.before.Refreshed(w.clock(n).now);
    EffectIsLocal(f.Hand(a.idx), a.idx, w.reply(n, a.idx), w.clock(n).at, maxRetries);
  }

  // ----- what each reply does to its key -----

  /** A reply decides when its key can be used again: an answer or any other status leaves it active; a refusal
      disables it for good; a 429 cools it for the announced wait or the default one; a failure cools it for the
      default one once more than `maxRetries` failures have come in a row. */
  lemma ReplyDecides(a: Attempt, n: nat, w: World, maxRetries: nat, t: real)
    requires IsAttempt(a, n, w, maxRetries)
    ensures |a.after.states| == |a.before.states|
    ensures var at, usable, c := w.clock(n).at, a.after.Refreshed(t).states[a.idx].status.Active?, a.before.cooldown;
      match w.reply(n, a.idx)
      case Refused(_) => a.after.states[a.idx].status.Disabled? && !usable
      case TooMany(Some(wait)) => usable <==> t >= at && t >= at + wait
      case TooMany(None) => usable <==> t >= at && t >= at + c
      case Failed(_) => usable <==> a.before.states[a.idx].failures + 1 <= maxRetries || t >= at + c
      case _ => usable
  {
    var r := a.before.Refreshed(w.clock(n).now);
    EffectIsLocal(r.Hand(a.idx), a.idx, w.reply(n, a.idx), w.clock(n).at, maxRetries);
    assert r.states[a.idx] == Refresh(a.before.states[a.idx], w.clock(n).now);
    assert a.after.Refreshed(t).states[a.idx] == Refresh(a.after.states[a.idx], t);
  }
}
