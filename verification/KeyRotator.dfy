/** app/llm/ollama_rotator.py: the circular key rotator. */
module KeyRotation {
  import opened Wrappers
  import opened Text
  import opened Dedupe
  import opened Collections

  datatype Status = Active | Cooling | Disabled

  datatype KeyState = KeyState(key: string, status: Status, cooldownUntil: real, failures: nat,
                               lastError: Option<string>, requests: nat)

  datatype Acquisition = Got(idx: nat) | Exhausted(retryAfter: Option<real>)

  /** What a caller reports about a key. */
  datatype Report =
    | Success
    | RateLimited(retryAfter: Option<real>)
    | Unauthorized(reason: string)
    | ServerError(reason: string)
    | CoolDown(seconds: Option<real>)

  function NonNegative(x: real): real { if x < 0.0 then 0.0 else x }

  // ----- one key -----

  function Refresh(s: KeyState, now: real): KeyState {
    if s.status.Cooling? && now >= s.cooldownUntil then s.(status := Active, cooldownUntil := 0.0) else s
  }

  function Reported(s: KeyState, r: Report, at: real, cooldown: real): KeyState {
    match r
    case Success => s.(failures := 0, lastError := None)
    case RateLimited(after) =>
      s.(status := Cooling, cooldownUntil := at + NonNegative(if after.Some? then after.value else cooldown),
         failures := s.failures + 1, lastError := Some("rate_limited"))
    case Unauthorized(reason) =>
      s.(status := Disabled, cooldownUntil := 0.0, failures := s.failures + 1, lastError := Some(reason))
    case ServerError(reason) => s.(failures := s.failures + 1, lastError := Some(reason))
    case CoolDown(seconds) =>
      s.(status := Cooling, cooldownUntil := at + (if seconds.Some? then NonNegative(seconds.value) else cooldown),
         lastError := if s.lastError.Some? && s.lastError.value != "" then s.lastError else Some("server_error"))
  }

  predicate MovesOn(r: Report) { r.RateLimited? || r.Unauthorized? || r.CoolDown? }

  // ----- the rotator as a value -----

  /** The position `offset` steps on from the cursor. */
  function Slot(cursor: nat, n: nat, offset: nat): (i: nat)
    requires n > 0
    ensures i < n
  {
    (cursor + offset) % n
  }

  datatype Rotator = Rotator(states: seq<KeyState>, cursor: nat, cooldown: real) {
    ghost predicate Valid() {
      && 0 < |states| && cursor < |states|
      && forall i, j | 0 <= i < j < |states| :: states[i].key != states[j].key
    }

    function Refreshed(now: real): (r: Rotator)
      ensures |r.states| == |states| && r.cursor == cursor && r.cooldown == cooldown
      ensures forall i | 0 <= i < |states| :: r.states[i] == Refresh(states[i], now)
    {
      this.(states := seq(|states|, i requires 0 <= i < |states| => Refresh(states[i], now)))
    }

    /** `_find_locked`: the position of a key, or -1. */
    function Position(key: string, from: nat := 0): (i: int)
      ensures i == -1 ==> forall j | from <= j < |states| :: states[j].key != key
      ensures i != -1 ==> from <= i < |states| && states[i].key == key
                          && forall j | from <= j < i :: states[j].key != key
      decreases |states| - from
    {
      if from >= |states| then -1 else if states[from].key == key then from else Position(key, from + 1)
    }

    /** A report about a key; unknown keys are ignored. */
    function After(key: string, r: Report, at: real): Rotator {
      var i := Position(key);
      if i == -1 then this
      else this.(states := states[i := Reported(states[i], r, at, cooldown)],
                 cursor := if MovesOn(r) then (cursor + 1) % |states| else cursor)
    }

    /** The smallest remaining cooldown of the first `n` keys. */
    function Soonest(now: real, n: nat): (r: Option<real>)
      requires n <= |states|
      ensures r.None? <==> forall i | 0 <= i < n :: !states[i].status.Cooling?
      ensures r.Some? ==> (forall i | 0 <= i < n && states[i].status.Cooling? :: r.value <= states[i].cooldownUntil - now)
                          && exists i :: 0 <= i < n && states[i].status.Cooling? && r.value == states[i].cooldownUntil - now
    {
      if n == 0 then None
      else
        var before := Soonest(now, n - 1);
        if !states[n - 1].status.Cooling? then before
        else
          var left := states[n - 1].cooldownUntil - now;
          if before.Some? && before.value <= left then before else Some(left)
    }

    /** `idx` is the first active key in circular order from the cursor. */
    ghost predicate FirstActive(idx: nat, offset: nat) {
      && 0 < |states| && offset < |states| && idx == Slot(cursor, |states|, offset) && states[idx].status.Active?
      && forall o | 0 <= o < offset :: !states[Slot(cursor, |states|, o)].status.Active?
    }

    ghost predicate NoneActive() { forall i | 0 <= i < |states| :: !states[i].status.Active? }

    /** Handing out key `idx`. */
    function Hand(idx: nat): Rotator
      requires idx < |states|
    {
      this.(cursor := idx, states := states[idx := states[idx].(requests := states[idx].requests + 1)])
    }

    /** What `acquire` does, the clock read at `now` for the refresh and at `later` for the error. */
    ghost predicate Acquires(now: real, later: real, after: Rotator, a: Acquisition) {
      var r := Refreshed(now);
      match a
      case Got(idx) => (exists offset :: r.FirstActive(idx, offset)) && after == r.Hand(idx)
      case Exhausted(retry) => r.NoneActive() && after == r && retry == r.RetryAfter(later)
    }

    function RetryAfter(now: real): Option<real> {
      match Soonest(now, |states|) case None => None case Some(left) => Some(NonNegative(left))
    }
  }

  /** Every position is reached from the cursor by some offset. */
  lemma Reached(cursor: nat, n: nat, i: nat) returns (offset: nat)
    requires cursor < n && i < n
    ensures offset < n && Slot(cursor, n, offset) == i
  {
    offset := if i >= cursor then i - cursor else i + n - cursor;
    WrapOnce(i, n);
  }

  lemma WrapOnce(i: nat, n: nat)
    requires i < n
    ensures (i + n) % n == i % n == i
  {
  }

  /** `acquire` has one outcome. */
  lemma AcquireIsDeterministic(r: Rotator, now: real, later: real, p: Rotator, a: Acquisition, q: Rotator, b: Acquisition)
    requires r.Valid() && r.Acquires(now, later, p, a) && r.Acquires(now, later, q, b)
    ensures p == q && a == b
  {
    hide Slot;
    var f := r.Refreshed(now);
    if a.Got? && b.Got? {
      var o1 :| f.FirstActive(a.idx, o1);
      var o2 :| f.FirstActive(b.idx, o2);
      assert o1 == o2;
    }
  }

  // ----- the rotator as an object -----

  class KeyRotator {
    var states: seq<KeyState>
    var cursor: nat
    const cooldown: real

    function View(): Rotator reads this { Rotator(states, cursor, cooldown) }

    /** The distinct keys, in order; one at least. */
    constructor (unique: seq<string>, cooldownSeconds: real)
      requires unique != [] && Distinct(unique)
      ensures View() == Initial(unique, cooldownSeconds) && View().Valid()
    {
      states := seq(|unique|, i requires 0 <= i < |unique| => KeyState(unique[i], Active, 0.0, 0, None, 0));
      cursor := 0;
      cooldown := cooldownSeconds;
    }

    /** `__init__`: strips, drops blanks and repeats, and fails (null) when no key is left. */
    static method Create(keys: seq<string>, cooldownSeconds: real) returns (r: KeyRotator?)
      ensures r == null <==> forall k | k in keys :: Strip(k) == ""
      ensures r != null ==> fresh(r) && r.View().Valid()
                            && r.View() == Initial(FirstOccurrences(UsableKeys(keys)), cooldownSeconds)
    {
      UsableKeysSpec(keys);
      FirstOccurrencesSpec(UsableKeys(keys));
      var unique := DropRepeats(UsableKeys(keys));
      if unique == [] {
        assert forall x :: x !in UsableKeys(keys);
        return null;
      }
      assert unique[0] in unique;
      r := new KeyRotator(unique, cooldownSeconds);
    }

    method RefreshCooldowns(now: real)
      modifies this`states
      ensures View() == old(View()).Refreshed(now)
    {
      var i := 0;
      while i < |states|
        invariant i <= |states| == |old(states)|
        invariant forall j | 0 <= j < |states| :: states[j] == if j < i then Refresh(old(states)[j], now) else old(states)[j]
      {
        var s := states[i];
        if s.status.Cooling? && now >= s.cooldownUntil {
          states := states[i := s.(status := Active, cooldownUntil := 0.0)];
        }
        i := i + 1;
      }
    }

    /** `acquire`. */
    method Acquire(now: real, later: real) returns (a: Acquisition)
      requires View().Valid()
      modifies this`states, this`cursor
      ensures View().Valid() && old(View()).Acquires(now, later, View(), a)
    {
      hide Slot;
      RefreshCooldowns(now);
      ghost var r := View();
      var n := |states|;
      for offset := 0 to n
        invariant View() == r && r == old(View()).Refreshed(now)
        invariant forall o | 0 <= o < offset :: !states[Slot(cursor, n, o)].status.Active?
      {
        var idx := Slot(cursor, n, offset);
        if states[idx].status.Active? {
          assert r.FirstActive(idx, offset);
          cursor := idx;
          states := states[idx := states[idx].(requests := states[idx].requests + 1)];
          return Got(idx);
        }
      }
      forall i | 0 <= i < n ensures !states[i].status.Active? {
        var offset := Reached(cursor, n, i);
      }
      a := Exhausted(View().RetryAfter(later));
    }

    /** `report_success`, `report_rate_limited`, `report_unauthorized`, `report_server_error` and
        `cooldown_key`; the clock is read at `at`. */
    method Report(key: string, r: Report, at: real)
      requires View().Valid()
      modifies this`states, this`cursor
      ensures View() == old(View()).After(key, r, at) && View().Valid()
    {
      var i := 0;
      while i < |states| && states[i].key != key
        invariant i <= |states|
        invariant forall j | 0 <= j < i :: states[j].key != key
      {
        i := i + 1;
      }
      if i == |states| { return; }
      states := states[i := Reported(states[i], r, at, cooldown)];
      if MovesOn(r) { cursor := (cursor + 1) % |states|; }
    }
  }

  /** `k.strip()` for every key, blanks dropped. */
  function UsableKeys(keys: seq<string>): seq<string> {
    if keys == [] then []
    else (if Strip(keys[0]) == "" then [] else [Strip(keys[0])]) + UsableKeys(keys[1..])
  }

  function Initial(unique: seq<string>, cooldown: real): Rotator {
    Rotator(seq(|unique|, i requires 0 <= i < |unique| => KeyState(unique[i], Active, 0.0, 0, None, 0)), 0, cooldown)
  }

  lemma {:induction false} UsableKeysSpec(keys: seq<string>)
    ensures UsableKeys(keys) == [] <==> forall k | k in keys :: Strip(k) == ""
  {
    hide Strip;
    if keys != [] {
      UsableKeysSpec(keys[1..]);
      assert forall k :: k in keys <==> k == keys[0] || k in keys[1..];
    }
  }

  // ----- retry_after is exact -----

  /** When `acquire` fails with a positive retry_after and nothing is reported, it fails at every
      earlier time and succeeds exactly then. */
  lemma RetryAfterIsExact(r: Rotator, now: real, later: real, after: Rotator, wait: real, t: real)
    requires r.Valid() && r.Acquires(now, later, after, Exhausted(Some(wait))) && wait > 0.0
    ensures t < later + wait ==> after.Refreshed(t).NoneActive()
    ensures t >= later + wait ==> !after.Refreshed(t).NoneActive()
  {
    var left := after.Soonest(later, |after.states|).value;
    var i :| 0 <= i < |after.states| && after.states[i].status.Cooling? && left == after.states[i].cooldownUntil - later;
    assert after.Refreshed(t).states[i] == Refresh(after.states[i], t);
  }

  /** There is no retry_after exactly when every key is disabled. */
  lemma NoRetryAfterMeansDisabled(r: Rotator, now: real, later: real, after: Rotator, retry: Option<real>)
    requires r.Valid() && r.Acquires(now, later, after, Exhausted(retry))
    ensures retry.None? <==> forall i | 0 <= i < |r.states| :: r.states[i].status.Disabled?
  {
    assert forall i | 0 <= i < |r.states| :: after.states[i] == Refresh(r.states[i], now);
  }

  // ----- disabled keys -----

  /** A report un-disables a key exactly when it is a late 429 or forced cooldown about that key. */
  lemma DisabledSurvives(r: Rotator, i: nat, key: string, report: Report, at: real)
    requires r.Valid() && i < |r.states| && r.states[i].status.Disabled?
    ensures r.After(key, report, at).states[i].status.Disabled?
      <==> !(key == r.states[i].key && (report.RateLimited? || report.CoolDown?))
  {
  }

  // ----- what a report does to its key -----

  /** When the key of a report is usable at time `t` at or after the report: after a 429 from the announced wait on
      (the default one when none is announced, none when it is negative); after a forced cooldown likewise; after a
      refusal never; and otherwise as before. Other keys are not touched. */
  lemma UsableAfter(r: Rotator, i: nat, report: Report, at: real, t: real, j: nat)
    requires r.Valid() && i < |r.states| && j < |r.states| && j != i
    ensures var after := r.After(r.states[i].key, report, at);
      var usable := |after.states| == |r.states| && after.Refreshed(t).states[i].status.Active?; (
      && after.Valid() && after.states[j] == r.states[j]
      && match report
         case RateLimited(Some(wait)) => usable <==> t >= at + wait && t >= at
         case RateLimited(None) => usable <==> t >= at + r.cooldown && t >= at
         case CoolDown(Some(wait)) => usable <==> t >= at + wait && t >= at
         case CoolDown(None) => usable <==> t >= at + r.cooldown
         case Unauthorized(_) => !usable
         case _ => usable <==> r.Refreshed(t).states[i].status.Active?)
  {
    var after := r.After(r.states[i].key, report, at);
    assert r.Position(r.states[i].key) == i;
    assert after.Refreshed(t).states[i] == Refresh(after.states[i], t);
    assert r.Refreshed(t).states[i] == Refresh(r.states[i], t);
  }

  // ----- the keys of a new rotator -----

  predicate NotBlank(key: string) { Strip(key) != "" }

  /** `ix` lists, ascending, the positions of the keys that are not blank. */
  ghost predicate NotBlankAt(keys: seq<string>, ix: seq<nat>) {
    Increasing(ix) && forall i: nat :: i in ix <==> i < |keys| && NotBlank(keys[i])
  }

  /** The usable keys are those at the positions `ix`, stripped. */
  ghost predicate StrippedAt(keys: seq<string>, ix: seq<nat>) {
    |UsableKeys(keys)| == |ix| && forall k | 0 <= k < |ix| :: ix[k] < |keys| && UsableKeys(keys)[k] == Strip(keys[ix[k]])
  }

  lemma {:induction false} UsableSnoc(keys: seq<string>, key: string)
    ensures UsableKeys(keys + [key]) == UsableKeys(keys) + if NotBlank(key) then [Strip(key)] else []
  {
    hide Strip;
    if keys == [] {
      assert [key][1..] == [];
    } else {
      assert (keys + [key])[1..] == keys[1..] + [key];
      UsableSnoc(keys[1..], key);
    }
  }

  /** The usable keys are the stripped ones that are not blank, in order. */
  lemma {:induction false} UsableKeysAre(keys: seq<string>) returns (ix: seq<nat>)
    ensures NotBlankAt(keys, ix) && StrippedAt(keys, ix)
  {
    hide NotBlank, NotBlankAt, StrippedAt, UsableKeys;
    if keys == [] {
      ix := [];
      NoKeys();
    } else {
      var n := |keys| - 1;
      var before := UsableKeysAre(keys[..n]);
      ix := if NotBlank(keys[n]) then before + [n] else before;
      TakeNext(keys, n);
      TakeAll(keys);
      NextPosition(keys[..n], keys[n], before);
      NextStripped(keys[..n], keys[n], before);
    }
  }

  lemma NoKeys()
    ensures NotBlankAt([], []) && StrippedAt([], [])
  {
  }

  lemma NextPosition(keys: seq<string>, key: string, ix: seq<nat>)
    requires NotBlankAt(keys, ix)
    ensures NotBlankAt(keys + [key], if NotBlank(key) then ix + [|keys|] else ix)
  {
    hide NotBlank;
    forall k | 0 <= k < |ix| ensures ix[k] < |keys| { assert ix[k] in ix; }
  }

  lemma NextStripped(keys: seq<string>, key: string, ix: seq<nat>)
    requires StrippedAt(keys, ix)
    ensures StrippedAt(keys + [key], if NotBlank(key) then ix + [|keys|] else ix)
  {
    hide NotBlank, UsableKeys, Strip;
    UsableSnoc(keys, key);
    Neutral(UsableKeys(keys));
  }
}
