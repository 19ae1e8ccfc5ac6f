/** app/services/comparison_orchestrator.py: what `run_orchestrator` commits to the run's row, and when. */
module Orchestration {
  import opened Wrappers

  datatype Status = Parsing | Detecting | Comparing | Done | Failed

  predicate Terminal(st: Status) { st.Done? || st.Failed? }

  /** One issue row; `content` stands for its summaries, citations and verdicts. */
  datatype Issue = Issue(number: nat, topic: string, content: string)

  /** What other sessions can read of a run. */
  datatype Row = Row(status: Status, framework: Option<string>, error: Option<string>, issues: seq<Issue>)

  datatype Extraction = ExtractionFailed(error: string) | NoText(error: string) | Spans
  datatype Detection = DetectionFailed(error: string) | Detected(framework: Option<string>, topics: seq<string>)

  /** Where the orchestrator is: between two of its commits, or gone. */
  datatype Place = Created | Extracting | DetectingNow | ComparingNow(topics: seq<string>) | Gone

  /** The committed row (None once it is deleted), the session's own copy of it, the issues added to the
      session, and the orchestrator's place. */
  datatype State = State(db: Option<Row>, mine: Row, added: seq<Issue>, place: Place)

  datatype Action =
    | Begin
    | Extract(extraction: Extraction)
    | Detect(detection: Detection, noIssues: string)
    | Compare(content: string)
    | Publish
    | Crash
    | Delete

  // ----- what each section does -----

  /** A commit writes the session's copy and its issues at once; on a deleted row it raises. */
  function Committed(s: State, mine: Row, next: Place): State {
    if s.db.None? then s.(mine := mine, place := Gone)
    else State(Some(mine.(issues := mine.issues + s.added)), mine.(issues := mine.issues + s.added), [], next)
  }

  function Step(s: State, a: Action): State {
    match a
    case Begin =>
      if !s.place.Created? then s
      else if s.db.None? then s.(place := Gone)
      else Committed(s, s.db.value.(status := Parsing), Extracting)
    case Extract(result) => if s.place.Extracting? then AfterExtraction(s, result) else s
    case Detect(result, noIssues) => if s.place.DetectingNow? then AfterDetection(s, result, noIssues) else s
    case Compare(content) =>
      if s.place.ComparingNow? && |s.added| < |s.place.topics|
      then s.(added := s.added + [Issue(|s.added| + 1, s.place.topics[|s.added|], content)])
      else s
    case Publish =>
      if s.place.ComparingNow? && |s.added| == |s.place.topics|
      then Committed(s, s.mine.(status := Done), Gone)
      else s
    case Crash => s.(place := Gone, added := [])
    case Delete => s.(db := None)
  }

  function AfterExtraction(s: State, result: Extraction): State {
    match result
    case ExtractionFailed(error) => Committed(s, s.mine.(status := Failed, error := Some(error)), Gone)
    case NoText(error) => Committed(s, s.mine.(status := Failed, error := Some(error)), Gone)
    case Spans => Committed(s, s.mine.(status := Status.Detecting), DetectingNow)
  }

  function AfterDetection(s: State, result: Detection, noIssues: string): State {
    match result
    case DetectionFailed(error) => Committed(s, s.mine.(status := Failed, error := Some(error)), Gone)
    case Detected(framework, topics) =>
      var known := if framework in [Some("US"), Some("IFRS")] then framework else None;
      if topics == []
      then Committed(s, s.mine.(status := Done, framework := known, error := Some(noIssues)), Gone)
      else Committed(s, s.mine.(status := Status.Comparing, framework := known), ComparingNow(topics))
  }

  /** The orchestrator's session, updated in place; `db` is what its commits have made visible. */
  class Session {
    var db: Option<Row>
    var mine: Row
    var added: seq<Issue>
    var place: Place

    ghost function View(): State reads this { State(db, mine, added, place) }

    method Commit(next: Place)
      modifies this
      ensures View() == Committed(old(View()), old(mine), next)
    {
      if db.None? {
        place := Gone;
        return;
      }
      mine := mine.(issues := mine.issues + added);
      db, added, place := Some(mine), [], next;
    }

    method Start()
      requires place.Created?
      modifies this
      ensures View() == Step(old(View()), Begin)
    {
      if db.None? {
        place := Gone;
        return;
      }
      mine := db.value.(status := Parsing);
      Commit(Extracting);
    }

    /** From the extraction's outcome to the next commit. */
    method OnExtraction(result: Extraction)
      requires place.Extracting?
      modifies this
      ensures View() == Step(old(View()), Extract(result))
    {
      if result.Spans? {
        mine := mine.(status := Status.Detecting);
        Commit(DetectingNow);
        return;
      }
      mine := mine.(status := Failed, error := Some(result.error));
      Commit(Gone);
    }

    /** From the detection's outcome to the next commit. */
    method OnDetection(result: Detection, noIssues: string)
      requires place.DetectingNow?
      modifies this
      ensures View() == Step(old(View()), Detect(result, noIssues))
    {
      if result.DetectionFailed? {
        mine := mine.(status := Failed, error := Some(result.error));
        Commit(Gone);
        return;
      }
      var known := None;
      if result.framework == Some("US") || result.framework == Some("IFRS") { known := result.framework; }
      mine := mine.(framework := known);
      if result.topics == [] {
        mine := mine.(status := Done, error := Some(noIssues));
        Commit(Gone);
        return;
      }
      mine := mine.(status := Status.Comparing);
      Commit(ComparingNow(result.topics));
    }

    /** The loop over the issues: rows are added to the session only, and one commit publishes them all
        with the final status. */
    method CompareAll(contents: seq<string>)
      requires place.ComparingNow? && added == [] && |contents| == |place.topics|
      modifies this
      ensures old(db).Some? ==> db == Some(old(mine).(status := Done,
        issues := old(mine).issues + Numbered(old(place).topics, contents)))
      ensures old(db).None? ==> db == None
      ensures place.Gone?
    {
      var topics := place.topics;
      for i := 0 to |topics|
        invariant db == old(db) && mine == old(mine) && place == old(place)
        invariant added == Numbered(topics[..i], contents[..i])
      {
        assert topics[..i + 1][..i] == topics[..i] && contents[..i + 1][..i] == contents[..i];
        added := added + [Issue(i + 1, topics[i], contents[i])];
      }
      assert topics[..|topics|] == topics && contents[..|topics|] == contents;
      mine := mine.(status := Done);
      Commit(Gone);
    }
  }

  /** The issue rows of a list of topics: numbered from 1, in the list's order. */
  function Numbered(topics: seq<string>, contents: seq<string>): (rows: seq<Issue>)
    requires |topics| == |contents|
    ensures |rows| == |topics|
    ensures forall i | 0 <= i < |rows| :: rows[i] == Issue(i + 1, topics[i], contents[i])
  {
    seq(|topics|, i requires 0 <= i < |topics| => Issue(i + 1, topics[i], contents[i]))
  }

  // ----- the invariant -----

  predicate Counted(issues: seq<Issue>) {
    forall i | 0 <= i < |issues| :: issues[i].number == i + 1
  }

  /** Issues can be read only of a run that is done, and then they are numbered 1, 2, 3, ... */
  predicate RowOk(r: Row) {
    && Counted(r.issues)
    && (r.issues != [] ==> r.status.Done?)
  }

  /** The issues added so far are those of the first topics, in order. */
  predicate Follows(added: seq<Issue>, topics: seq<string>) {
    Counted(added) && |added| <= |topics| && forall i | 0 <= i < |added| :: added[i].topic == topics[i]
  }

  function StatusAt(p: Place): Option<Status> {
    match p
    case Created => Some(Parsing)
    case Extracting => Some(Parsing)
    case DetectingNow => Some(Status.Detecting)
    case ComparingNow(_) => Some(Status.Comparing)
    case Gone => None
  }

  predicate Inv(s: State) {
    && (s.db.Some? ==> RowOk(s.db.value))
    && (s.db.Some? && !s.place.Gone? ==> Some(s.db.value.status) == StatusAt(s.place))
    && (s.db.Some? && !s.place.Gone? && !s.place.Created? ==> s.mine == s.db.value)
    && (s.place.ComparingNow? ==> Follows(s.added, s.place.topics))
    && (!s.place.ComparingNow? && !s.place.Gone? ==> s.added == [])
  }

  /** A run begins as parsing, without issues, and its orchestrator before its first commit. */
  lemma BeginsInInv(mine: Row)
    ensures Inv(State(Some(Row(Parsing, None, None, [])), mine, [], Created))
  {
  }

  function Rank(st: Status): nat {
    match st
    case Parsing => 0
    case Detecting => 1
    case Comparing => 2
    case _ => 3
  }

  /** What a session reads later: a deleted row stays deleted, a row at its end stays as it is, and any
      other row has kept its status or moved it forward. */
  predicate Later(a: Option<Row>, b: Option<Row>) {
    && (a.None? ==> b.None?)
    && (a.Some? && b.Some? && Terminal(a.value.status) ==> b == a)
    && (a.Some? && b.Some? ==> a.value.status == b.value.status || Rank(a.value.status) < Rank(b.value.status))
  }

  /** A commit that moves the status of an unfinished row forward, or keeps it. */
  lemma CommitKeepsInv(s: State, mine: Row, next: Place)
    requires Inv(s)
    requires (s.db.Some? ==>
      && !Terminal(s.db.value.status) && RowOk(mine.(issues := mine.issues + s.added))
      && (s.db.value.status == mine.status || Rank(s.db.value.status) < Rank(mine.status))
      && (next.Gone? || StatusAt(next) == Some(mine.status)))
    requires !s.place.ComparingNow? || next.Gone?
    requires s.place.ComparingNow? || s.added == []
    ensures Inv(Committed(s, mine, next)) && Later(s.db, Committed(s, mine, next).db)
  {
    hide RowOk, Counted, Rank;
    assert next.ComparingNow? ==> Follows([], next.topics) by { NoneFollow(next); }
  }

  lemma NoneFollow(p: Place)
    ensures p.ComparingNow? ==> Follows([], p.topics)
  {
  }

  lemma NoIssues(mine: Row)
    requires mine.issues == []
    ensures RowOk(mine.(issues := mine.issues + []))
  {
    assert mine.issues + [] == [];
  }

  lemma CompareKeepsInv(s: State, content: string)
    requires Inv(s)
    ensures Inv(Step(s, Compare(content)))
  {
    hide RowOk;
  }

  lemma PublishKeepsInv(s: State)
    requires Inv(s)
    ensures Inv(Step(s, Publish)) && Later(s.db, Step(s, Publish).db)
  {
    if s.place.ComparingNow? && |s.added| == |s.place.topics| {
      assert s.db.Some? ==> s.mine.issues + s.added == s.added;
      CommitKeepsInv(s, s.mine.(status := Done), Gone);
    }
  }

  lemma StepKeepsInv(s: State, a: Action)
    requires Inv(s)
    ensures Inv(Step(s, a))
    ensures Later(s.db, Step(s, a).db)
  {
    match a
    case Begin =>
      if s.place.Created? && s.db.Some? {
        NoIssues(s.db.value);
        CommitKeepsInv(s, s.db.value.(status := Parsing), Extracting);
      }
    case Extract(x) => if s.place.Extracting? { ExtractKeepsInv(s, x); }
    case Detect(x, noIssues) => if s.place.DetectingNow? { DetectKeepsInv(s, x, noIssues); }
    case Compare(content) => CompareKeepsInv(s, content);
    case Publish => PublishKeepsInv(s);
    case Crash =>
    case Delete =>
  }

  lemma ExtractKeepsInv(s: State, x: Extraction)
    requires Inv(s) && s.place.Extracting?
    ensures Inv(AfterExtraction(s, x)) && Later(s.db, AfterExtraction(s, x).db)
  {
    if s.db.Some? { NoIssues(s.mine); }
    if x.Spans? { CommitKeepsInv(s, s.mine.(status := Status.Detecting), DetectingNow); }
    else { CommitKeepsInv(s, s.mine.(status := Failed, error := Some(x.error)), Gone); }
  }

  lemma DetectKeepsInv(s: State, x: Detection, noIssues: string)
    requires Inv(s) && s.place.DetectingNow?
    ensures Inv(AfterDetection(s, x, noIssues)) && Later(s.db, AfterDetection(s, x, noIssues).db)
  {
    if s.db.Some? { NoIssues(s.mine); }
    if x.DetectionFailed? {
      CommitKeepsInv(s, s.mine.(status := Failed, error := Some(x.error)), Gone);
    } else {
      var known := if x.framework in [Some("US"), Some("IFRS")] then x.framework else None;
      CommitKeepsInv(s, s.mine.(status := Done, framework := known, error := Some(noIssues)), Gone);
      CommitKeepsInv(s, s.mine.(status := Status.Comparing, framework := known), ComparingNow(x.topics));
    }
  }

  ghost function Run(s: State, actions: seq<Action>): State {
    if actions == [] then s else Step(Run(s, actions[..|actions| - 1]), actions[|actions| - 1])
  }

  lemma {:induction false} RunKeepsInv(s: State, actions: seq<Action>)
    requires Inv(s)
    ensures Inv(Run(s, actions))
  {
    if actions != [] {
      hide Inv, Step;
      RunKeepsInv(s, actions[..|actions| - 1]);
      StepKeepsInv(Run(s, actions[..|actions| - 1]), actions[|actions| - 1]);
    }
  }

  /** A read after `j` steps is later than one after `i <= j` steps. */
  lemma {:induction false} RunMovesForward(s: State, actions: seq<Action>, i: nat, j: nat)
    requires Inv(s) && i <= j <= |actions|
    ensures Later(Run(s, actions[..i]).db, Run(s, actions[..j]).db)
    decreases j
  {
    if i < j {
      hide Inv, Step;
      var before := actions[..j][..j - 1];
      assert before == actions[..j - 1];
      RunMovesForward(s, actions, i, j - 1);
      RunKeepsInv(s, before);
      StepKeepsInv(Run(s, before), actions[j - 1]);
    }
  }

  /** The publishing commit makes every topic's issue visible, in order, together with the final status. */
  lemma PublishIsWhole(s: State)
    requires Inv(s) && s.db.Some? && s.place.ComparingNow? && |s.added| == |s.place.topics|
    ensures var after := Step(s, Publish).db; var topics := s.place.topics;
      && after.Some? && after.value.status.Done? && |after.value.issues| == |topics|
      && forall i | 0 <= i < |topics| ::
        after.value.issues[i].number == i + 1 && after.value.issues[i].topic == topics[i]
  {
    assert s.mine.issues + s.added == s.added;
  }

  function Compares(contents: seq<string>): seq<Action> {
    if contents == [] then [] else Compares(contents[..|contents| - 1]) + [Compare(contents[|contents| - 1])]
  }

  /** The comparison loop is as many small steps, none of which other sessions can see. */
  lemma {:induction false} LoopIsSteps(s: State, contents: seq<string>)
    requires s.place.ComparingNow? && s.added == [] && |contents| <= |s.place.topics|
    ensures Run(s, Compares(contents)) == s.(added := Numbered(s.place.topics[..|contents|], contents))
  {
    var topics := s.place.topics;
    if contents == [] {
      assert Numbered(topics[..0], []) == [];
    } else {
      hide Numbered, Step;
      var n := |contents| - 1;
      LoopIsSteps(s, contents[..n]);
      assert Compares(contents)[..|Compares(contents)| - 1] == Compares(contents[..n]);
      CompareStep(s, contents, n);
    }
  }

  lemma CompareStep(s: State, contents: seq<string>, n: nat)
    requires s.place.ComparingNow? && n + 1 == |contents| <= |s.place.topics|
    ensures var topics := s.place.topics;
      Step(s.(added := Numbered(topics[..n], contents[..n])), Compare(contents[n]))
      == s.(added := Numbered(topics[..n + 1], contents))
  {
    var topics := s.place.topics;
    assert Numbered(topics[..n], contents[..n]) + [Issue(n + 1, topics[n], contents[n])]
        == Numbered(topics[..n + 1], contents);
  }

  // ----- how a run ends -----

  /** The run's row after each step of an undisturbed orchestrator. */
  ghost function Ending(s: State, x: Extraction, d: Detection, noIssues: string, contents: seq<string>): State {
    Step(Run(Step(Step(Step(s, Begin), Extract(x)), Detect(d, noIssues)), Compares(contents)), Publish)
  }

  /** A session that is gone commits nothing more. */
  lemma {:induction false} GoneStaysGone(s: State, contents: seq<string>)
    requires s.place.Gone?
    ensures Run(s, Compares(contents)) == s
  {
    if contents != [] {
      var n := |contents| - 1;
      GoneStaysGone(s, contents[..n]);
      assert Compares(contents)[..|Compares(contents)| - 1] == Compares(contents[..n]);
    }
  }

  /** A run ends as failed exactly when its extraction failed or found no text, or its detection failed, with that
      error and no issues; otherwise as done, with the framework if it is a known one and every topic's issue in
      order, and with a note instead of issues when there are none. */
  lemma RunEnds(s: State, x: Extraction, d: Detection, noIssues: string, contents: seq<string>)
    requires s.db.Some? && s.place.Created? && s.added == [] && s.db.value.issues == []
    requires d.Detected? ==> |contents| == |d.topics|
    ensures var end := Ending(s, x, d, noIssues, contents).db; (
      && end.Some? && Terminal(end.value.status)
      && (end.value.status.Failed? <==> !x.Spans? || d.DetectionFailed?)
      && (!x.Spans? ==> end.value.error == Some(x.error) && end.value.issues == [])
      && (x.Spans? && d.DetectionFailed? ==> end.value.error == Some(d.error) && end.value.issues == [])
      && (x.Spans? && d.Detected? ==>
        && (end.value.framework == Some("US") <==> d.framework == Some("US"))
        && (end.value.framework == Some("IFRS") <==> d.framework == Some("IFRS"))
        && (d.framework != Some("US") && d.framework != Some("IFRS") ==> end.value.framework == None)
        && end.value.error == (if d.topics == [] then Some(noIssues) else s.db.value.error)
        && |end.value.issues| == |d.topics|
        && forall i | 0 <= i < |d.topics| :: end.value.issues[i] == Issue(i + 1, d.topics[i], contents[i])))
  {
    hide Run, Compares, Numbered;
    ExtractionEnds(s, x);
    var s2 := Step(Step(s, Begin), Extract(x));
    var s3 := Step(s2, Detect(d, noIssues));
    if s2.place.DetectingNow? { DetectionEnds(s2, d, noIssues); }
    hide Step;
    if s3.place.Gone? {
      GoneStaysGone(s3, contents);
      GonePublishesNothing(s3);
    } else {
      LoopIsSteps(s3, contents);
      assert d.topics[..|contents|] == d.topics;
      AllIsPublished(s3, d.topics, contents);
    }
  }

  lemma ExtractionEnds(s: State, x: Extraction)
    requires s.db.Some? && s.place.Created? && s.added == [] && s.db.value.issues == []
    ensures var s2 := Step(Step(s, Begin), Extract(x)); (
      && s2.db == Some(s2.mine) && s2.added == [] && s2.mine.issues == []
      && if x.Spans? then s2.place.DetectingNow? && s2.mine.error == s.db.value.error
         else s2.place.Gone? && s2.mine.status.Failed? && s2.mine.error == Some(x.error))
  {
    assert s.db.value.issues + [] == [];
  }

  lemma DetectionEnds(s: State, d: Detection, noIssues: string)
    requires s.place.DetectingNow? && s.db == Some(s.mine) && s.added == [] && s.mine.issues == []
    ensures var s3 := Step(s, Detect(d, noIssues)); (
      && s3.db == Some(s3.mine) && s3.added == [] && s3.mine.issues == []
      && match d
         case DetectionFailed(error) => s3.place.Gone? && s3.mine.status.Failed? && s3.mine.error == Some(error)
         case Detected(framework, topics) =>
           && (s3.mine.framework == if framework == Some("US") || framework == Some("IFRS") then framework else None)
           && if topics == [] then s3.place.Gone? && s3.mine.status.Done? && s3.mine.error == Some(noIssues)
              else s3.place == ComparingNow(topics) && s3.mine.error == s.mine.error)
  {
    assert s.mine.issues + [] == [];
  }

  lemma GonePublishesNothing(s: State)
    requires s.place.Gone?
    ensures Step(s, Publish) == s
  {
  }

  lemma AllIsPublished(s: State, topics: seq<string>, contents: seq<string>)
    requires s.db == Some(s.mine) && s.place == ComparingNow(topics) && s.mine.issues == [] && |contents| == |topics|
    ensures Step(s.(added := Numbered(topics, contents)), Publish).db
      == Some(s.mine.(status := Done, issues := Numbered(topics, contents)))
  {
    assert [] + Numbered(topics, contents) == Numbered(topics, contents);
  }
}
