/** app/services/comparison_translation.py: `kick_pretranslation` and its background tasks, one atomic
    section per step between awaits, in every interleaving of one worker process. */
module PretranslationTasks {
  import opened Collections
  import opened Text
  import opened Wrappers
  import opened HebrewBoilerplate
  import opened BoilerplateTable
  import opened Pretranslation

  type RunId(==, !new) = nat

  /** A run's row: whether it is done, the fields it wants translated, and the Hebrew cache. */
  datatype Row = Row(done: bool, flat: Fields, cache: Fields) {
    function Missing(): Fields { map k | k in flat && k !in cache :: flat[k] }
  }

  /** A task before its read, between its read and its commit, and between its end and its callback. */
  datatype Phase = Created | Translating(snapshot: Fields, missing: Fields) | Ended
  datatype Task = Task(run: RunId, phase: Phase)
  datatype State = State(db: map<RunId, Row>, tasks: map<nat, Task>, inflight: set<RunId>, next: nat)

  datatype Action =
    | Kick(run: RunId)
    | Read(t: nat)
    | Commit(t: nat, answers: Answers)
    | Abort(t: nat)
    | Callback(t: nat)
    | MarkDone(run: RunId)
    | Delete(run: RunId)
    | Restart

  // ----- what each section does -----

  function ReadPhase(db: map<RunId, Row>, run: RunId): Phase {
    if run in db && db[run].done && db[run].Missing() != map[]
    then Translating(db[run].cache, db[run].Missing())
    else Ended
  }

  function Written(db: map<RunId, Row>, run: RunId, p: Phase, answers: Answers): map<RunId, Row>
    requires p.Translating?
  {
    var translated := TranslatedAll(p.missing, answers);
    if run !in db || Fresh(p.missing, translated) == {} then db
    else db[run := db[run].(cache := Merged(p.snapshot, p.missing, translated))]
  }

  /** One step; an action that does not apply changes nothing. */
  function Step(s: State, a: Action): State {
    match a
    case Kick(run) =>
      if run in s.inflight then s
      else s.(inflight := s.inflight + {run}, tasks := s.tasks[s.next := Task(run, Created)], next := s.next + 1)
    case Read(t) =>
      if t in s.tasks && s.tasks[t].phase.Created?
      then s.(tasks := s.tasks[t := s.tasks[t].(phase := ReadPhase(s.db, s.tasks[t].run))])
      else s
    case Commit(t, answers) =>
      if t in s.tasks && s.tasks[t].phase.Translating?
      then s.(db := Written(s.db, s.tasks[t].run, s.tasks[t].phase, answers),
              tasks := s.tasks[t := s.tasks[t].(phase := Ended)])
      else s
    case Abort(t) =>
      if t in s.tasks then s.(tasks := s.tasks[t := s.tasks[t].(phase := Ended)]) else s
    case Callback(t) =>
      if t in s.tasks && s.tasks[t].phase.Ended?
      then s.(tasks := s.tasks - {t}, inflight := s.inflight - {s.tasks[t].run})
      else s
    case MarkDone(run) =>
      if run in s.db then s.(db := s.db[run := s.db[run].(done := true)]) else s
    case Delete(run) => s.(db := s.db - {run})
    case Restart => s.(tasks := map[], inflight := {})
  }

  /** The worker's module-level sets and the rows it writes, updated in place. */
  class Worker {
    var db: map<RunId, Row>
    var tasks: map<nat, Task>
    var inflight: set<RunId>
    var next: nat

    ghost function View(): State reads this { State(db, tasks, inflight, next) }

    /** `kick_pretranslation`. */
    method Kick(run: RunId)
      modifies this
      ensures View() == Step(old(View()), Action.Kick(run))
    {
      if run in inflight { return; }
      inflight := inflight + {run};
      tasks := tasks[next := Task(run, Created)];
      next := next + 1;
    }

    /** `pretranslate_run_to_hebrew` up to its first await on the translator. */
    method Begin(t: nat)
      requires t in tasks && tasks[t].phase.Created?
      modifies this
      ensures View() == Step(old(View()), Read(t))
    {
      var run := tasks[t].run;
      var phase := Ended;
      if run in db && db[run].done {
        var row := db[run];
        var missing := row.Missing();
        if missing != map[] { phase := Translating(row.cache, missing); }
      }
      tasks := tasks[t := Task(run, phase)];
    }

    /** `pretranslate_run_to_hebrew` from the translator's answers to its end; the commit fails, and is
        swallowed, when the row has been deleted meanwhile. */
    method Finish(t: nat, answers: Answers)
      requires t in tasks && tasks[t].phase.Translating?
      modifies this
      ensures View() == Step(old(View()), Commit(t, answers))
    {
      hide Fresh, Merged, TranslatedAll;
      var run, p := tasks[t].run, tasks[t].phase;
      var translated := TranslateToHebrew(p.missing, answers);
      var cache, added := Merge(p.snapshot, p.missing, translated);
      if added > 0 && run in db {
        db := db[run := db[run].(cache := cache)];
      }
      tasks := tasks[t := Task(run, Ended)];
    }

    /** `_done`. */
    method Done(t: nat)
      requires t in tasks && tasks[t].phase.Ended?
      modifies this
      ensures View() == Step(old(View()), Callback(t))
    {
      var run := tasks[t].run;
      tasks := tasks - {t};
      inflight := inflight - {run};
    }
  }

  // ----- the invariant -----

  ghost predicate GoodRow(r: Row) {
    Sources(r.flat) && forall k | k in r.cache :: ContainsHebrew(r.cache[k])
  }

  /** What a translating task remembers is still what the row says, while there is one. */
  ghost predicate UpToDate(db: map<RunId, Row>, task: Task) {
    task.phase.Translating? && task.run in db ==>
      && db[task.run].done
      && task.phase.snapshot == db[task.run].cache
      && task.phase.missing == db[task.run].Missing()
  }

  ghost predicate Inv(s: State) {
    && (forall r | r in s.db :: GoodRow(s.db[r]))
    && (forall t | t in s.tasks :: t < s.next && s.tasks[t].run in s.inflight)
    && (forall t, u | t in s.tasks && u in s.tasks && s.tasks[t].run == s.tasks[u].run :: t == u)
    && (forall r | r in s.inflight :: exists t :: t in s.tasks && s.tasks[t].run == r)
    && (forall t | t in s.tasks :: UpToDate(s.db, s.tasks[t]))
  }

  /** Row `after` extends `before`: no cached key lost, no cached value overwritten, only wanted
      fields added. */
  ghost predicate Extends(before: Row, after: Row) {
    && after.flat == before.flat && (before.done ==> after.done)
    && (forall k | k in before.cache :: k in after.cache && after.cache[k] == before.cache[k])
    && (forall k | k in after.cache :: k in before.cache || k in before.flat)
  }

  /** A commit from an up-to-date task writes Hebrew only, loses nothing, and leaves less missing. */
  lemma CommitExtends(row: Row, answers: Answers)
    requires GoodRow(row)
    ensures var missing := row.Missing();
      var translated := TranslatedAll(missing, answers);
      var after := row.(cache := Merged(row.cache, missing, translated));
      GoodRow(after) && Extends(row, after)
      && (Fresh(missing, translated) != {} ==> after.Missing().Keys < missing.Keys)
  {
    hide Accepted, Translated, IsFresh, Localized, ContainsHebrew, NeedsTranslation, Fresh, TranslatedAll;
    var missing := row.Missing();
    var translated := TranslatedAll(missing, answers);
    FreshIsMissing(missing, answers);
    forall k | k in Fresh(missing, translated) ensures ContainsHebrew(Localized(translated[k])) {
      FreshMeansTranslated(missing, answers, k);
    }
    Grown(row, Picked(translated, Fresh(missing, translated)));
  }

  lemma FreshIsMissing(missing: Fields, answers: Answers)
    ensures TranslatedAll(missing, answers).Keys == missing.Keys
    ensures Fresh(missing, TranslatedAll(missing, answers)) <= missing.Keys
  {
    hide IsFresh, Translated;
  }

  /** A row whose cache takes in Hebrew values for missing fields only. */
  lemma Grown(row: Row, more: Fields)
    requires GoodRow(row) && more.Keys <= row.Missing().Keys && forall k | k in more :: ContainsHebrew(more[k])
    ensures var after := row.(cache := row.cache + more);
      GoodRow(after) && Extends(row, after) && (more.Keys != {} ==> after.Missing().Keys < row.Missing().Keys)
  {
    hide ContainsHebrew, NeedsTranslation;
    var after := row.(cache := row.cache + more);
    if more.Keys != {} {
      var k :| k in more.Keys;
      assert k in row.Missing().Keys && k !in after.Missing().Keys;
    }
  }

  lemma WrittenExtends(db: map<RunId, Row>, task: Task, answers: Answers)
    requires task.phase.Translating? && task.run in db && UpToDate(db, task) && forall r | r in db :: GoodRow(db[r])
    ensures var after := Written(db, task.run, task.phase, answers);
      after.Keys == db.Keys
      && (forall r | r in db && r != task.run :: after[r] == db[r])
      && GoodRow(after[task.run]) && Extends(db[task.run], after[task.run])
      && (after[task.run].cache != db[task.run].cache
          ==> after[task.run].Missing().Keys < db[task.run].Missing().Keys)
  {
    hide Fresh, Merged, GoodRow, TranslatedAll;
    CommitExtends(db[task.run], answers);
    ExtendsSelf(db[task.run]);
  }

  lemma WrittenGone(db: map<RunId, Row>, run: RunId, p: Phase, answers: Answers)
    requires p.Translating? && run !in db
    ensures Written(db, run, p, answers) == db
  {
  }

  lemma ExtendsSelf(r: Row)
    ensures Extends(r, r)
  {
  }

  lemma KickKeepsInv(s: State, run: RunId)
    requires Inv(s) && run !in s.inflight
    ensures Inv(Step(s, Action.Kick(run)))
  {
    hide GoodRow, UpToDate;
    var s' := Step(s, Action.Kick(run));
    CreatedUpToDate(s.db, run);
    forall r | r in s'.inflight ensures exists t :: t in s'.tasks && s'.tasks[t].run == r {
      if r == run { assert s'.tasks[s.next].run == r; }
      else { var t :| t in s.tasks && s.tasks[t].run == r; assert s'.tasks[t].run == r; }
    }
  }

  lemma CreatedUpToDate(db: map<RunId, Row>, run: RunId)
    ensures UpToDate(db, Task(run, Created)) && UpToDate(db, Task(run, Ended)) && UpToDate(db, Task(run, ReadPhase(db, run)))
  {
  }

  /** Moving one task to a phase that agrees with the rows. */
  lemma PhaseKeepsInv(s: State, t: nat, p: Phase)
    requires Inv(s) && t in s.tasks && UpToDate(s.db, s.tasks[t].(phase := p))
    ensures Inv(s.(tasks := s.tasks[t := s.tasks[t].(phase := p)]))
  {
    hide GoodRow, UpToDate;
    var s' := s.(tasks := s.tasks[t := s.tasks[t].(phase := p)]);
    forall r | r in s'.inflight ensures exists t :: t in s'.tasks && s'.tasks[t].run == r {
      var u :| u in s.tasks && s.tasks[u].run == r;
      assert s'.tasks[u].run == r;
    }
  }

  lemma CommitKeepsInv(s: State, t: nat, answers: Answers)
    requires Inv(s) && t in s.tasks && s.tasks[t].phase.Translating?
    ensures Inv(Step(s, Commit(t, answers)))
  {
    hide GoodRow, Written, Extends, Row.Missing;
    var ended := s.(tasks := s.tasks[t := s.tasks[t].(phase := Ended)]);
    CreatedUpToDate(s.db, s.tasks[t].run);
    PhaseKeepsInv(s, t, Ended);
    if s.tasks[t].run in s.db { WrittenExtends(s.db, s.tasks[t], answers); }
    else { WrittenGone(s.db, s.tasks[t].run, s.tasks[t].phase, answers); }
    var s' := Step(s, Commit(t, answers));
    assert s' == ended.(db := Written(s.db, s.tasks[t].run, s.tasks[t].phase, answers));
    forall u | u in s'.tasks ensures UpToDate(s'.db, s'.tasks[u]) {
      assert UpToDate(s.db, s.tasks[u]);
    }
  }

  lemma CallbackKeepsInv(s: State, t: nat)
    requires Inv(s) && t in s.tasks
    ensures Inv(s.(tasks := s.tasks - {t}, inflight := s.inflight - {s.tasks[t].run}))
  {
    hide GoodRow, UpToDate;
    var s' := s.(tasks := s.tasks - {t}, inflight := s.inflight - {s.tasks[t].run});
    forall r | r in s'.inflight ensures exists u :: u in s'.tasks && s'.tasks[u].run == r {
      var u :| u in s.tasks && s.tasks[u].run == r;
      assert u in s'.tasks;
    }
  }

  lemma MarkKeepsInv(s: State, run: RunId)
    requires Inv(s) && run in s.db
    ensures Inv(Step(s, MarkDone(run)))
  {
    hide GoodRow, Row.Missing;
    MarkKeepsRow(s.db[run]);
    forall t | t in s.tasks ensures UpToDate(Step(s, MarkDone(run)).db, s.tasks[t]) {
      assert UpToDate(s.db, s.tasks[t]);
    }
  }

  /** Every step keeps the invariant: in particular at most one task per run is live. */
  lemma StepKeepsInv(s: State, a: Action)
    requires Inv(s)
    ensures Inv(Step(s, a))
  {
    hide Inv, Written, GoodRow, Row.Missing, UpToDate, ReadPhase;
    match a
    case Kick(run) => if run !in s.inflight { KickKeepsInv(s, run); }
    case Read(t) =>
      if t in s.tasks && s.tasks[t].phase.Created? {
        CreatedUpToDate(s.db, s.tasks[t].run);
        PhaseKeepsInv(s, t, ReadPhase(s.db, s.tasks[t].run));
      }
    case Abort(t) =>
      if t in s.tasks {
        CreatedUpToDate(s.db, s.tasks[t].run);
        PhaseKeepsInv(s, t, Ended);
      }
    case Commit(t, answers) =>
      if t in s.tasks && s.tasks[t].phase.Translating? { CommitKeepsInv(s, t, answers); }
    case Callback(t) =>
      if t in s.tasks && s.tasks[t].phase.Ended? { CallbackKeepsInv(s, t); }
    case MarkDone(run) => if run in s.db { MarkKeepsInv(s, run); }
    case Delete(run) => DeleteKeepsInv(s, run);
    case Restart => RestartKeepsInv(s);
  }

  lemma DeleteKeepsInv(s: State, run: RunId)
    requires Inv(s)
    ensures Inv(Step(s, Delete(run)))
  {
    hide GoodRow, Row.Missing;
    forall t | t in s.tasks ensures UpToDate(s.db - {run}, s.tasks[t]) {
      assert UpToDate(s.db, s.tasks[t]);
    }
  }

  lemma RestartKeepsInv(s: State)
    requires Inv(s)
    ensures Inv(Step(s, Restart))
  {
  }

  lemma MarkKeepsRow(r: Row)
    ensures GoodRow(r) ==> GoodRow(r.(done := true))
    ensures r.(done := true).Missing() == r.Missing()
  {
  }

  /** Every step only extends the rows it does not delete, and a step that changes a cache strictly
      shrinks what the run is missing. */
  lemma StepExtends(s: State, a: Action, r: RunId)
    requires Inv(s) && r in s.db && a != Delete(r)
    ensures var s' := Step(s, a);
      r in s'.db && Extends(s.db[r], s'.db[r])
      && (s'.db[r].cache != s.db[r].cache ==> s'.db[r].Missing().Keys < s.db[r].Missing().Keys)
      && (s'.db[r].cache == s.db[r].cache ==> s'.db[r].Missing() == s.db[r].Missing())
  {
    hide Written, GoodRow, Extends;
    ExtendsSelf(s.db[r]);
    MarkExtends(s.db[r]);
    if a.Commit? && a.t in s.tasks && s.tasks[a.t].phase.Translating? {
      var task := s.tasks[a.t];
      if task.run in s.db {
        WrittenExtends(s.db, task, a.answers);
        SameFlat(s.db[task.run], Step(s, a).db[task.run]);
      } else {
        WrittenGone(s.db, task.run, task.phase, a.answers);
      }
    }
  }

  lemma MarkExtends(r: Row)
    ensures Extends(r, r.(done := true))
  {
  }

  lemma SameFlat(before: Row, after: Row)
    requires Extends(before, after)
    ensures after.cache == before.cache ==> after.Missing() == before.Missing()
  {
  }

  // ----- whole runs of the system -----

  ghost function Run(s: State, actions: seq<Action>): State {
    if actions == [] then s else Step(Run(s, actions[..|actions| - 1]), actions[|actions| - 1])
  }

  /** How many steps wrote to the cache of `r`. */
  ghost function Writes(s: State, actions: seq<Action>, r: RunId): nat {
    if actions == [] then 0
    else
      var n := |actions| - 1;
      var before, after := Run(s, actions[..n]), Run(s, actions);
      Writes(s, actions[..n], r)
      + if r in before.db && r in after.db && before.db[r].cache != after.db[r].cache then 1 else 0
  }

  lemma ExtendsTrans(a: Row, b: Row, c: Row)
    requires Extends(a, b) && Extends(b, c)
    ensures Extends(a, c)
  {
  }

  lemma NoRowAppears(s: State, a: Action, r: RunId)
    requires r !in s.db
    ensures r !in Step(s, a).db
  {
  }

  /** In every interleaving of kicks, reads, commits, failures, callbacks, completions, deletions and
      restarts: the invariant holds throughout, the cache of a run only grows while the run exists, and
      it is written at most once for each field that was missing. */
  lemma {:induction false} RunIsSafe(s: State, actions: seq<Action>, r: RunId)
    requires Inv(s) && r in s.db
    ensures Inv(Run(s, actions))
    ensures Writes(s, actions, r) <= |s.db[r].Missing().Keys|
    ensures (r in Run(s, actions).db ==>
      && Extends(s.db[r], Run(s, actions).db[r])
      && Writes(s, actions, r) + |Run(s, actions).db[r].Missing().Keys| <= |s.db[r].Missing().Keys|)
  {
    hide Step, Extends, Inv, Row.Missing;
    if actions == [] {
      ExtendsSelf(s.db[r]);
    } else {
      var n := |actions| - 1;
      RunIsSafe(s, actions[..n], r);
      var before, after := Run(s, actions[..n]), Run(s, actions);
      StepKeepsInv(before, actions[n]);
      if r !in before.db {
        NoRowAppears(before, actions[n], r);
      } else if actions[n] == Delete(r) {
        DeletedIsGone(before, r);
      } else {
        StepExtends(before, actions[n], r);
        ExtendsTrans(s.db[r], before.db[r], after.db[r]);
        if after.db[r].cache != before.db[r].cache {
          SubsetSize(after.db[r].Missing().Keys, before.db[r].Missing().Keys);
        }
      }
    }
  }

  lemma DeletedIsGone(s: State, r: RunId)
    ensures r !in Step(s, Delete(r)).db
  {
  }

  /** A worker process begins with no tasks, over rows of Hebrew caches. */
  lemma BeginsInInv(db: map<RunId, Row>)
    requires forall r | r in db :: GoodRow(db[r])
    ensures Inv(State(db, map[], {}, 0))
  {
  }

  lemma AtMostOneTask(s: State, actions: seq<Action>, t: nat, u: nat)
    requires Inv(s)
    ensures var s' := Run(s, actions);
      t in s'.tasks && u in s'.tasks && s'.tasks[t].run == s'.tasks[u].run ==> t == u
    decreases |actions|
  {
    RunKeepsInv(s, actions);
  }

  lemma {:induction false} RunKeepsInv(s: State, actions: seq<Action>)
    requires Inv(s)
    ensures Inv(Run(s, actions))
  {
    if actions != [] {
      RunKeepsInv(s, actions[..|actions| - 1]);
      StepKeepsInv(Run(s, actions[..|actions| - 1]), actions[|actions| - 1]);
    }
  }

  // ----- what a commit writes -----

  /** What a commit of a task leaves in the cache: nothing new when no answer was accepted; else the task's
      own snapshot with its accepted answers, whatever was written since. */
  lemma WriteCaches(db: map<RunId, Row>, run: RunId, p: Phase, answers: Answers, key: string)
    requires run in db && p.Translating? && Sources(p.missing) && key in p.missing && key !in p.snapshot
    ensures var after := Written(db, run, p, answers);
      && run in after
      && ((forall k | k in p.missing :: Accepted(answers(k)).None?) ==> after == db)
      && ((exists k :: k in p.missing && Accepted(answers(k)).Some?) ==>
        if Accepted(answers(key)).Some?
        then key in after[run].cache && after[run].cache[key] == Localized(Accepted(answers(key)).value)
        else key !in after[run].cache)
  {
    hide Accepted, Fresh, Merged, TranslatedAll, Sources, Localized;
    forall k | k in p.missing
      ensures k in Fresh(p.missing, TranslatedAll(p.missing, answers)) <==> Accepted(answers(k)).Some?
    {
      FreshMeansTranslated(p.missing, answers, k);
    }
    FreshIsMissing(p.missing, answers);
    MergedAt(p.snapshot, p.missing, answers, key);
  }

  lemma MergedAt(cache: Fields, missing: Fields, answers: Answers, key: string)
    requires Sources(missing) && key in missing && key !in cache
    ensures var translated := TranslatedAll(missing, answers); var merged := Merged(cache, missing, translated);
      if key in Fresh(missing, translated)
      then key in merged && (Accepted(answers(key)).Some? ==> merged[key] == Localized(Accepted(answers(key)).value))
      else key !in merged
  {
    hide Localized, IsFresh, Accepted, ContainsHebrew, Strip;
    FreshIsMissing(missing, answers);
    assert NeedsTranslation(Some(missing[key]));
  }

  lemma MissingIsSources(r: Row)
    requires GoodRow(r)
    ensures Sources(r.Missing()) && forall k | k in r.Missing() :: k !in r.cache
  {
  }

  // ----- a started task delivers -----

  /** A field the run wants in Hebrew and does not have. */
  predicate Wanted(s: State, run: RunId, key: string) {
    run in s.db && key in s.db[run].flat && key !in s.db[run].cache
  }

  /** A task that reads a row goes on to translate iff the run is done and still wants some field, whatever is
      cached already; and it takes on all the fields wanted. */
  lemma ReadTranslates(s: State, t: nat)
    requires t in s.tasks && s.tasks[t].phase.Created?
    ensures var s', run := Step(s, Read(t)), s.tasks[t].run;
      t in s'.tasks && s'.db == s.db
      && (s'.tasks[t].phase.Translating? <==> run in s.db && s.db[run].done && exists k :: Wanted(s, run, k))
      && (s'.tasks[t].phase.Translating? ==>
          forall k :: (k in s'.tasks[t].phase.missing <==> Wanted(s, run, k))
            && (Wanted(s, run, k) ==> s'.tasks[t].phase.missing[k] == s.db[run].flat[k]))
  {
    var run := s.tasks[t].run;
    if run in s.db {
      var row := s.db[run];
      assert forall k :: k in row.Missing() <==> Wanted(s, run, k);
      if k :| Wanted(s, run, k) { assert row.Missing() != map[]; }
      if row.Missing() != map[] { var k :| k in row.Missing(); }
    }
  }

  /** The commit of a translating task caches exactly the wanted fields whose answers are accepted, and keeps what
      was cached. */
  lemma CommitDelivers(s: State, t: nat, answers: Answers, key: string)
    requires Inv(s) && t in s.tasks && s.tasks[t].phase.Translating? && s.tasks[t].run in s.db
    ensures var s', run := Step(s, Commit(t, answers)), s.tasks[t].run;
      run in s'.db
      && (key in s.db[run].cache ==> key in s'.db[run].cache && s'.db[run].cache[key] == s.db[run].cache[key])
      && (Wanted(s, run, key) ==>
          if Accepted(answers(key)).Some?
          then key in s'.db[run].cache && s'.db[run].cache[key] == Localized(Accepted(answers(key)).value)
          else key !in s'.db[run].cache)
  {
    hide Accepted, Written, Localized, Sources, Extends;
    var task := s.tasks[t];
    assert UpToDate(s.db, task) && GoodRow(s.db[task.run]);
    MissingIsSources(s.db[task.run]);
    WrittenExtends(s.db, task, answers);
    ExtendsKeeps(s.db[task.run], Written(s.db, task.run, task.phase, answers)[task.run], key);
    if Wanted(s, task.run, key) {
      WriteCaches(s.db, task.run, task.phase, answers, key);
      NoneOrSome(task.phase.missing, answers);
    }
  }

  lemma ExtendsKeeps(before: Row, after: Row, key: string)
    requires Extends(before, after)
    ensures key in before.cache ==> key in after.cache && after.cache[key] == before.cache[key]
  {
  }

  lemma NoneOrSome(missing: Fields, answers: Answers)
    ensures (forall k | k in missing :: Accepted(answers(k)).None?) || exists k :: k in missing && Accepted(answers(k)).Some?
  {
  }

  /** One undisturbed pass over a done run that is not in flight: every accepted answer to a wanted field ends in
      the cache, what was cached stays, and the run can be kicked again. */
  lemma PassDelivers(s: State, run: RunId, answers: Answers, key: string)
    requires Inv(s) && run in s.db && s.db[run].done && run !in s.inflight
    ensures var s' := Pass(s, run, answers);
      run in s'.db && run !in s'.inflight
      && (key in s.db[run].cache ==> key in s'.db[run].cache && s'.db[run].cache[key] == s.db[run].cache[key])
      && (Wanted(s, run, key) ==>
          if Accepted(answers(key)).Some?
          then key in s'.db[run].cache && s'.db[run].cache[key] == Localized(Accepted(answers(key)).value)
          else key !in s'.db[run].cache)
  {
    hide Accepted, Written, Localized, Inv, ReadPhase;
    var t := s.next;
    var s1 := Step(s, Action.Kick(run));
    var s2 := Step(s1, Read(t));
    StepKeepsInv(s, Action.Kick(run));
    StepKeepsInv(s1, Read(t));
    ReadTranslates(s1, t);
    assert s1.db == s.db && s1.tasks[t] == Task(run, Created);
    assert Wanted(s, run, key) <==> Wanted(s1, run, key);
    if s2.tasks[t].phase.Translating? { CommitDelivers(s2, t, answers, key); }
    ReadEndsOrTranslates(s1.db, run);
  }

  function Pass(s: State, run: RunId, answers: Answers): State {
    Step(Step(Step(Step(s, Action.Kick(run)), Read(s.next)), Commit(s.next, answers)), Callback(s.next))
  }

  lemma ReadEndsOrTranslates(db: map<RunId, Row>, run: RunId)
    ensures ReadPhase(db, run).Ended? || ReadPhase(db, run).Translating?
  {
  }

  /** So a pass in which every answer is accepted leaves nothing to translate. */
  lemma PassCompletes(s: State, run: RunId, answers: Answers)
    requires Inv(s) && run in s.db && s.db[run].done && run !in s.inflight
    requires forall k :: Wanted(s, run, k) ==> Accepted(answers(k)).Some?
    ensures var s' := Pass(s, run, answers); run in s'.db && forall k :: !Wanted(s', run, k)
  {
    hide Accepted, Inv, Localized, Step;
    var s' := Pass(s, run, answers);
    PassDelivers(s, run, answers, "");
    PassKeepsFlat(s, run, answers);
    forall k ensures !Wanted(s', run, k) {
      PassDelivers(s, run, answers, k);
    }
  }

  lemma PassKeepsFlat(s: State, run: RunId, answers: Answers)
    requires Inv(s) && run in s.db
    ensures var s' := Pass(s, run, answers); run in s'.db && s'.db[run].flat == s.db[run].flat
  {
    hide Step, Inv, Extends;
    var acts := [Action.Kick(run), Read(s.next), Commit(s.next, answers), Callback(s.next)];
    var s1 := Step(s, acts[0]);
    var s2 := Step(s1, acts[1]);
    var s3 := Step(s2, acts[2]);
    StepKeepsInv(s, acts[0]);
    StepKeepsInv(s1, acts[1]);
    StepKeepsInv(s2, acts[2]);
    StepKeepsFlat(s, acts[0], run);
    StepKeepsFlat(s1, acts[1], run);
    StepKeepsFlat(s2, acts[2], run);
    StepKeepsFlat(s3, acts[3], run);
  }

  lemma StepKeepsFlat(s: State, a: Action, r: RunId)
    requires Inv(s) && r in s.db && a != Delete(r)
    ensures r in Step(s, a).db && Step(s, a).db[r].flat == s.db[r].flat
  {
    hide Step, Inv;
    StepExtends(s, a, r);
  }

  // ----- the one-task guard is needed -----

  /** Two tasks of one run that read the same row, as two worker processes could start them. A field the
      first commit cached is dropped by the second exactly when the second failed on it but translated
      another; and it is overwritten when the second translated it too. */
  lemma TwoTasksLoseAKey(db: map<RunId, Row>, run: RunId, p: Phase, key: string, first: Answers, second: Answers)
    requires run in db && GoodRow(db[run]) && p == Translating(db[run].cache, db[run].Missing())
    requires key in p.missing && Accepted(first(key)).Some?
    ensures var db1 := Written(db, run, p, first);
      && run in db1 && key in db1[run].cache && db1[run].cache[key] == Localized(Accepted(first(key)).value)
    ensures var db2 := Written(Written(db, run, p, first), run, p, second);
      && run in db2
      && (key !in db2[run].cache
          <==> Accepted(second(key)).None? && exists k :: k in p.missing && Accepted(second(k)).Some?)
      && (Accepted(second(key)).Some? ==>
          key in db2[run].cache && db2[run].cache[key] == Localized(Accepted(second(key)).value))
  {
    hide Accepted, Written, Row.Missing, GoodRow, Localized, Sources;
    MissingIsSources(db[run]);
    WriteCaches(db, run, p, first, key);
    WriteCaches(Written(db, run, p, first), run, p, second, key);
  }

  /** The second of two commits drops nothing and changes nothing that the first left in the cache. */
  ghost predicate KeepsAll(s: State, t: nat, u: nat, run: RunId, first: Answers, second: Answers) {
    var s1 := Step(s, Commit(t, first));
    var s2 := Step(s1, Commit(u, second));
    run in s1.db ==> (run in s2.db
      && forall k | k in s1.db[run].cache :: k in s2.db[run].cache && s2.db[run].cache[k] == s1.db[run].cache[k])
  }

  predicate Translates(s: State, t: nat, run: RunId) {
    t in s.tasks && s.tasks[t].run == run && s.tasks[t].phase.Translating?
  }

  ghost predicate EveryPairKeepsAll(s: State, run: RunId) {
    forall t, u, first, second | Translates(s, t, run) && Translates(s, u, run) && t != u ::
      KeepsAll(s, t, u, run, first, second)
  }

  ghost predicate AtMostOneTranslates(s: State, run: RunId) {
    forall t, u | Translates(s, t, run) && Translates(s, u, run) :: t == u
  }

  /** Whatever the translator answers, concurrent commits of a run are harmless iff the run has at most one
      translating task or has nothing missing. */
  lemma HarmlessIff(s: State, run: RunId)
    requires run in s.db && GoodRow(s.db[run]) && forall t | t in s.tasks :: UpToDate(s.db, s.tasks[t])
    ensures EveryPairKeepsAll(s, run) <==> AtMostOneTranslates(s, run) || s.db[run].Missing() == map[]
  {
    hide GoodRow, Row.Missing, Step, KeepsAll, UpToDate;
    if s.db[run].Missing() == map[] {
      forall t, u, first, second | Translates(s, t, run) && Translates(s, u, run) && t != u
        ensures KeepsAll(s, t, u, run, first, second)
      {
        NothingMissingKeeps(s, t, u, run, first, second);
      }
    } else if !AtMostOneTranslates(s, run) {
      var t, u :| Translates(s, t, run) && Translates(s, u, run) && t != u;
      var key :| key in s.db[run].Missing();
      Overwrites(s, t, u, run, key);
    }
  }

  lemma NothingMissingKeeps(s: State, t: nat, u: nat, run: RunId, first: Answers, second: Answers)
    requires run in s.db && Translates(s, t, run) && Translates(s, u, run) && t != u
    requires UpToDate(s.db, s.tasks[t]) && UpToDate(s.db, s.tasks[u]) && s.db[run].Missing() == map[]
    ensures KeepsAll(s, t, u, run, first, second)
  {
    hide Row.Missing;
    FreshIsMissing(map[], first);
    FreshIsMissing(map[], second);
  }

  /** Two different one-letter translations of a field: the later one replaces the earlier. */
  lemma Overwrites(s: State, t: nat, u: nat, run: RunId, key: string)
    requires run in s.db && GoodRow(s.db[run]) && Translates(s, t, run) && Translates(s, u, run) && t != u
    requires UpToDate(s.db, s.tasks[t]) && UpToDate(s.db, s.tasks[u]) && key in s.db[run].Missing()
    ensures !KeepsAll(s, t, u, run, _ => Some("א"), _ => Some("ב"))
  {
    hide Row.Missing, GoodRow, Localized, Written, Accepted;
    var first: Answers, second: Answers := _ => Some("א"), _ => Some("ב");
    OneLetter("א");
    OneLetter("ב");
    TwoTasksLoseAKey(s.db, run, s.tasks[t].phase, key, first, second);
  }

  lemma OneLetter(v: string)
    requires |v| == 1 && IsHebrew(v[0])
    ensures Accepted(Some(v)) == Some(v) && Localized(v) == v
  {
    hide PAIRS, LocalizeWith;
    TableIsShaped();
    forall j | 0 <= j < |PAIRS| ensures !Contains(v, PAIRS[j].0) {
      assert KeyShape(PAIRS[j].0);
    }
    PassKeepsKeyFree(v, PAIRS);
  }
}
