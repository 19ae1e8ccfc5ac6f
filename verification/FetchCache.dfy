/** app/ingest_standards/fetcher.py: the ETag cache of the standards crawl under concurrent fetch tasks,
    one atomic section per step between awaits, with crashes and later crawls. */
module FetchCache {
  import opened Wrappers
  import opened Text

  type Body = string

  /** What `_cache_key` hashes. The hash and the fixed path around it are taken to be injective, so the
      store is keyed by this text. */
  function Base(url: string, etag: string): string { url + ("|" + etag) }

  datatype Response =
    | RequestError
    | Response(code: int, etag: string, contentLength: nat, body: Body)

  /** Before the index is read, before the response, before the stored body arrives, before and after the
      store has the new body, and at the end. An empty `sent` is a request without If-None-Match. */
  datatype Phase =
    | Ready
    | Requested(sent: string)
    | Reading(sent: string)
    | Writing(etag: string, body: Body)
    | Written(etag: string, body: Body)
    | Finished(document: Option<Body>)

  datatype Task = Task(url: string, phase: Phase)

  /** The crawl's index of ETags, the index as last saved, the object store, and the fetch tasks. */
  datatype State = State(index: map<string, string>, saved: map<string, string>, store: map<string, Body>,
                         tasks: map<nat, Task>)

  datatype Action =
    | Spawn(t: nat, url: string)
    | Send(t: nat)
    | Receive(t: nat, r: Response, maxBytes: nat)
    | PutLands(t: nat)
    | Record(t: nat)
    | GetLands(t: nat, found: bool)
    | SaveIndex
    | NewCrawl(readable: bool)

  // ----- what each section does -----

  function CachedTag(index: map<string, string>, url: string): string {
    if url in index then index[url] else ""
  }

  function OnResponse(sent: string, r: Response, maxBytes: nat): Phase {
    if r.RequestError? then Finished(None)
    else if r.code == 304 && sent != "" then Reading(sent)
    else if r.code != 200 || r.contentLength > maxBytes || |r.body| > maxBytes then Finished(None)
    else if r.etag != "" then Writing(r.etag, r.body)
    else Finished(Some(r.body))
  }

  function Found(store: map<string, Body>, key: string, found: bool): Option<Body> {
    if found && key in store then Some(store[key]) else None
  }

  function Moved(s: State, t: nat, p: Phase): State
    requires t in s.tasks
  {
    s.(tasks := s.tasks[t := s.tasks[t].(phase := p)])
  }

  /** One step; an action that does not apply changes nothing. */
  function Step(s: State, a: Action): State {
    match a
    case Spawn(t, url) => if t in s.tasks then s else s.(tasks := s.tasks[t := Task(url, Ready)])
    case Send(t) =>
      if t in s.tasks && s.tasks[t].phase.Ready?
      then Moved(s, t, Requested(CachedTag(s.index, s.tasks[t].url)))
      else s
    case Receive(t, r, maxBytes) =>
      if t in s.tasks && s.tasks[t].phase.Requested?
      then Moved(s, t, OnResponse(s.tasks[t].phase.sent, r, maxBytes))
      else s
    case PutLands(t) =>
      if t in s.tasks && s.tasks[t].phase.Writing?
      then
        var p := s.tasks[t].phase;
        Moved(s, t, Written(p.etag, p.body)).(store := s.store[Base(s.tasks[t].url, p.etag) := p.body])
      else s
    case Record(t) =>
      if t in s.tasks && s.tasks[t].phase.Written?
      then
        var p := s.tasks[t].phase;
        Moved(s, t, Finished(Some(p.body))).(index := s.index[s.tasks[t].url := p.etag])
      else s
    case GetLands(t, found) =>
      if t in s.tasks && s.tasks[t].phase.Reading?
      then Moved(s, t, Finished(Found(s.store, Base(s.tasks[t].url, s.tasks[t].phase.sent), found)))
      else s
    case SaveIndex => if AllFinished(s) then s.(saved := s.index) else s
    case NewCrawl(readable) => s.(tasks := map[], index := if readable then s.saved else map[])
  }

  predicate AllFinished(s: State) { forall t | t in s.tasks :: s.tasks[t].phase.Finished? }

  /** The crawl's index and store, updated in place by its tasks. */
  class Crawl {
    var index: map<string, string>
    var saved: map<string, string>
    var store: map<string, Body>
    var tasks: map<nat, Task>

    ghost function View(): State reads this { State(index, saved, store, tasks) }

    /** `_fetch_one` up to its request. */
    method Request(t: nat) returns (ifNoneMatch: string)
      requires t in tasks && tasks[t].phase.Ready?
      modifies this
      ensures View() == Step(old(View()), Send(t))
      ensures ifNoneMatch == CachedTag(old(index), old(tasks)[t].url)
    {
      var url := tasks[t].url;
      ifNoneMatch := "";
      if url in index { ifNoneMatch := index[url]; }
      tasks := tasks[t := Task(url, Requested(ifNoneMatch))];
    }

    /** `_fetch_one` from the response to its next await or end. */
    method Take(t: nat, r: Response, maxBytes: nat)
      requires t in tasks && tasks[t].phase.Requested?
      modifies this
      ensures View() == Step(old(View()), Receive(t, r, maxBytes))
    {
      var url, sent := tasks[t].url, tasks[t].phase.sent;
      if r.RequestError? {
        tasks := tasks[t := Task(url, Finished(None))];
        return;
      }
      if r.code == 304 && sent != "" {
        tasks := tasks[t := Task(url, Reading(sent))];
        return;
      }
      if r.code != 200 || r.contentLength > maxBytes || |r.body| > maxBytes {
        tasks := tasks[t := Task(url, Finished(None))];
        return;
      }
      var phase := Finished(Some(r.body));
      if r.etag != "" { phase := Writing(r.etag, r.body); }
      tasks := tasks[t := Task(url, phase)];
    }

    /** The store's own work between the two sections of a caching task. */
    method Put(t: nat)
      requires t in tasks && tasks[t].phase.Writing?
      modifies this
      ensures View() == Step(old(View()), PutLands(t))
    {
      var task := tasks[t];
      store := store[Base(task.url, task.phase.etag) := task.phase.body];
      tasks := tasks[t := Task(task.url, Written(task.phase.etag, task.phase.body))];
    }

    /** `_fetch_one` after its put: only now does the index name the tag. */
    method Note(t: nat)
      requires t in tasks && tasks[t].phase.Written?
      modifies this
      ensures View() == Step(old(View()), Record(t))
    {
      var task := tasks[t];
      index := index[task.url := task.phase.etag];
      tasks := tasks[t := Task(task.url, Finished(Some(task.phase.body)))];
    }

    /** `_fetch_one` after a 304: the stored body, or nothing when the store fails. */
    method Serve(t: nat, found: bool)
      requires t in tasks && tasks[t].phase.Reading?
      modifies this
      ensures View() == Step(old(View()), GetLands(t, found))
    {
      var url, key := tasks[t].url, Base(tasks[t].url, tasks[t].phase.sent);
      var document := None;
      if found && key in store { document := Some(store[key]); }
      tasks := tasks[t := Task(url, Finished(document))];
    }
  }

  // ----- the servers -----

  /** Which ETags the servers ever send for a URL, and the body each one stands for: a strong validator
      (section 8.8.1 of RFC 9110) names one body. */
  datatype World = World(sends: (string, string) -> bool, body: (string, string) -> Body)

  /** A full response with an ETag carries the body that the tag stands for. */
  ghost predicate Honest(s: State, a: Action, w: World) {
    a.Receive? && a.t in s.tasks && a.r.Response? && a.r.code == 200 && a.r.etag != "" ==>
      w.sends(s.tasks[a.t].url, a.r.etag) && a.r.body == w.body(s.tasks[a.t].url, a.r.etag)
  }

  /** No two tags in use share a cache key and stand for different bodies. */
  ghost predicate KeysAreSafe(w: World) {
    forall u, e, v, f | w.sends(u, e) && w.sends(v, f) && Base(u, e) == Base(v, f) :: w.body(u, e) == w.body(v, f)
  }

  // ----- the invariant -----

  ghost predicate Holds(store: map<string, Body>, url: string, etag: string, w: World) {
    w.sends(url, etag) && Base(url, etag) in store && store[Base(url, etag)] == w.body(url, etag)
  }

  ghost predicate Backed(index: map<string, string>, store: map<string, Body>, w: World) {
    forall u | u in index :: Holds(store, u, index[u], w)
  }

  ghost predicate PhaseBacked(task: Task, store: map<string, Body>, w: World) {
    match task.phase
    case Requested(sent) => sent != "" ==> Holds(store, task.url, sent, w)
    case Reading(sent) => Holds(store, task.url, sent, w)
    case Writing(etag, body) => w.sends(task.url, etag) && body == w.body(task.url, etag)
    case Written(etag, body) => Holds(store, task.url, etag, w) && body == w.body(task.url, etag)
    case _ => true
  }

  /** Every tag in the index, in memory or saved, and every tag a task has sent, has in the store the body
      it stands for. */
  ghost predicate Inv(s: State, w: World) {
    && Backed(s.index, s.store, w) && Backed(s.saved, s.store, w)
    && forall t | t in s.tasks :: PhaseBacked(s.tasks[t], s.store, w)
  }

  lemma MovedKeepsInv(s: State, t: nat, p: Phase, w: World)
    requires Inv(s, w) && t in s.tasks && PhaseBacked(s.tasks[t].(phase := p), s.store, w)
    ensures Inv(Moved(s, t, p), w)
  {
    hide PhaseBacked, Backed;
  }

  /** A put under safe keys disturbs no stored body that a tag stands for. */
  lemma PutKeepsInv(s: State, t: nat, w: World)
    requires Inv(s, w) && KeysAreSafe(w) && t in s.tasks && s.tasks[t].phase.Writing?
    ensures Inv(Step(s, PutLands(t)), w)
  {
    hide Base;
    var task := s.tasks[t];
    var store := s.store[Base(task.url, task.phase.etag) := task.phase.body];
    assert PhaseBacked(task, s.store, w);
    forall u, e | Holds(s.store, u, e, w) ensures Holds(store, u, e, w) {}
    forall x | x in s.tasks ensures PhaseBacked(s.tasks[x], store, w) {
      assert PhaseBacked(s.tasks[x], s.store, w);
    }
  }

  lemma StepKeepsInv(s: State, a: Action, w: World)
    requires Inv(s, w) && KeysAreSafe(w) && Honest(s, a, w)
    ensures Inv(Step(s, a), w)
  {
    hide Base, KeysAreSafe;
    match a
    case Spawn(t, url) =>
    case Send(t) =>
      if t in s.tasks && s.tasks[t].phase.Ready? {
        MovedKeepsInv(s, t, Requested(CachedTag(s.index, s.tasks[t].url)), w);
      }
    case Receive(t, r, maxBytes) =>
      if t in s.tasks && s.tasks[t].phase.Requested? {
        assert PhaseBacked(s.tasks[t], s.store, w);
        MovedKeepsInv(s, t, OnResponse(s.tasks[t].phase.sent, r, maxBytes), w);
      }
    case PutLands(t) => if t in s.tasks && s.tasks[t].phase.Writing? { PutKeepsInv(s, t, w); }
    case Record(t) =>
      if t in s.tasks && s.tasks[t].phase.Written? {
        assert PhaseBacked(s.tasks[t], s.store, w);
        MovedKeepsInv(s, t, Finished(Some(s.tasks[t].phase.body)), w);
      }
    case GetLands(t, found) =>
      if t in s.tasks && s.tasks[t].phase.Reading? {
        MovedKeepsInv(s, t, Finished(Found(s.store, Base(s.tasks[t].url, s.tasks[t].phase.sent), found)), w);
      }
    case SaveIndex =>
    case NewCrawl(readable) =>
  }

  // ----- whole crawls -----

  ghost function Run(s: State, actions: seq<Action>): State {
    if actions == [] then s else Step(Run(s, actions[..|actions| - 1]), actions[|actions| - 1])
  }

  ghost predicate HonestRun(s: State, actions: seq<Action>, w: World) {
    actions == [] || (
      var n := |actions| - 1;
      HonestRun(s, actions[..n], w) && Honest(Run(s, actions[..n]), actions[n], w))
  }

  const EMPTY := State(map[], map[], map[], map[])

  lemma {:induction false} RunKeepsInv(s: State, actions: seq<Action>, w: World)
    requires Inv(s, w) && KeysAreSafe(w) && HonestRun(s, actions, w)
    ensures Inv(Run(s, actions), w)
  {
    if actions != [] {
      hide Inv, KeysAreSafe, Honest, Step;
      var n := |actions| - 1;
      RunKeepsInv(s, actions[..n], w);
      StepKeepsInv(Run(s, actions[..n]), actions[n], w);
    }
  }

  /** In every interleaving of fetches, crashes, saves and later crawls, a task whose request was answered
      304 finds in the store the very body that the tag it sent stands for. */
  lemma NotModifiedIsServed(s: State, actions: seq<Action>, t: nat, w: World)
    requires Inv(s, w) && KeysAreSafe(w) && HonestRun(s, actions, w)
    requires var s' := Run(s, actions); t in s'.tasks && s'.tasks[t].phase.Reading?
    ensures var s' := Run(s, actions); var task := s'.tasks[t];
      Step(s', GetLands(t, true)).tasks[t].phase == Finished(Some(w.body(task.url, task.phase.sent)))
  {
    hide Run, HonestRun, KeysAreSafe, Base;
    RunKeepsInv(s, actions, w);
    assert PhaseBacked(Run(s, actions).tasks[t], Run(s, actions).store, w);
  }

  // ----- when keys collide -----

  /** Two cache keys coincide iff the pairs do, or one URL is the other with a bar and a text appended
      that the other's tag begins with. */
  lemma KeysCollideIff(u: string, e: string, v: string, f: string)
    ensures Base(u, e) == Base(v, f) <==> (u == v && e == f) || Swallows(u, e, v, f) || Swallows(v, f, u, e)
  {
    if Base(u, e) == Base(v, f) {
      if |u| < |v| { LongerSwallows(u, e, v, f); }
      else if |v| < |u| { LongerSwallows(v, f, u, e); }
      else {
        AfterPrefix(u, "|" + e);
        AfterPrefix(v, "|" + f);
        assert ("|" + e)[1..] == e && ("|" + f)[1..] == f;
      }
    }
    if Swallows(u, e, v, f) { SwallowCollides(u, e, v, f); }
    if Swallows(v, f, u, e) { SwallowCollides(v, f, u, e); }
  }

  ghost predicate Swallows(u: string, e: string, v: string, f: string) {
    exists x: string :: v == u + ("|" + x) && e == x + ("|" + f)
  }

  lemma LongerSwallows(u: string, e: string, v: string, f: string)
    requires Base(u, e) == Base(v, f) && |u| < |v|
    ensures Swallows(u, e, v, f)
  {
    var s := Base(u, e);
    AfterPrefix(u, "|" + e);
    AfterPrefix(v, "|" + f);
    var x := v[|u| + 1..];
    assert v[..|u|] == s[..|u|] == u;
    assert v[|u|] == s[|u|] == '|';
    assert v == u + ("|" + x);
    assert e == s[|u| + 1..] == x + ("|" + f);
  }

  lemma SwallowCollides(u: string, e: string, v: string, f: string)
    requires Swallows(u, e, v, f)
    ensures Base(u, e) == Base(v, f)
  {
    var x :| v == u + ("|" + x) && e == x + ("|" + f);
    Assoc("|", x, "|" + f);
    Assoc(u, "|" + x, "|" + f);
  }

  /** An entity tag as section 8.8.3 of RFC 9110 writes it. */
  predicate EntityTag(e: string) { Quoted(e) || ("W/" <= e && Quoted(e[2..])) }

  predicate Quoted(e: string) {
    |e| >= 2 && e[0] == '"' && e[|e| - 1] == '"' && forall i | 0 < i < |e| - 1 :: e[i] != '"'
  }

  /** Tags of the standard's form never collide, whatever the URLs. */
  lemma EntityTagsNeverCollide(u: string, e: string, v: string, f: string)
    requires EntityTag(e) && EntityTag(f) && Base(u, e) == Base(v, f)
    ensures u == v && e == f
  {
    KeysCollideIff(u, e, v, f);
    TagSwallowsNone(u, e, v, f);
    TagSwallowsNone(v, f, u, e);
  }

  lemma TagSwallowsNone(u: string, e: string, v: string, f: string)
    requires EntityTag(e) && EntityTag(f)
    ensures !Swallows(u, e, v, f)
  {
    forall x: string ensures e != x + ("|" + f) {
      var t := x + ("|" + f);
      assert t[|x|] == '|';
      var q := if Quoted(f) then 0 else 2;
      assert t[|x| + 1 + q] == f[q] == '"';
    }
  }

  /** Nor do any tags at all, when no URL holds a bar. */
  lemma BarFreeUrlsNeverCollide(u: string, e: string, v: string, f: string)
    requires '|' !in u && '|' !in v && Base(u, e) == Base(v, f)
    ensures u == v && e == f
  {
    KeysCollideIff(u, e, v, f);
    assert forall a: string, x: string :: (a + ("|" + x))[|a|] == '|';
  }

  lemma RunNext(s: State, actions: seq<Action>, a: Action, w: World)
    ensures Run(s, actions + [a]) == Step(Run(s, actions), a)
    ensures HonestRun(s, actions + [a], w) <==> HonestRun(s, actions, w) && Honest(Run(s, actions), a, w)
  {
    hide Step, Honest;
    assert (actions + [a])[..|actions|] == actions;
  }

  /** A new task asks for `u`, after some actions. */
  function Asks(before: seq<Action>, t: nat, u: string): seq<Action> { before + [Spawn(t, u)] + [Send(t)] }

  lemma AskedIs(s: State, before: seq<Action>, t: nat, u: string, w: World)
    requires HonestRun(s, before, w) && t !in Run(s, before).tasks
    ensures var s1 := Run(s, before); (
      && HonestRun(s, Asks(before, t, u), w)
      && Run(s, Asks(before, t, u)) == s1.(tasks := s1.tasks[t := Task(u, Requested(CachedTag(s1.index, u)))]))
  {
    hide Run, HonestRun;
    RunNext(s, before, Spawn(t, u), w);
    RunNext(s, before + [Spawn(t, u)], Send(t), w);
  }

  /** A fetch of `u` that is answered in full. */
  function Fetch(before: seq<Action>, t: nat, u: string, e: string, body: Body): seq<Action> {
    Asks(before, t, u) + [Receive(t, Response(200, e, 0, body), |body|)] + [PutLands(t)] + [Record(t)]
  }

  lemma FetchCaches(s: State, before: seq<Action>, t: nat, u: string, e: string, w: World)
    requires HonestRun(s, before, w) && t !in Run(s, before).tasks && w.sends(u, e) && e != ""
    ensures var body := w.body(u, e); var s1 := Run(s, before); var s2 := Run(s, Fetch(before, t, u, e, body));
      && HonestRun(s, Fetch(before, t, u, e, body), w)
      && s2.index == s1.index[u := e] && s2.store == s1.store[Base(u, e) := body]
      && s2.tasks == s1.tasks[t := Task(u, Finished(Some(body)))]
  {
    hide Run, HonestRun, Base, Asks, CachedTag;
    var body := w.body(u, e);
    AskedIs(s, before, t, u, w);
    var asked := Asks(before, t, u);
    var answer := Receive(t, Response(200, e, 0, body), |body|);
    RunNext(s, asked, answer, w);
    RunNext(s, asked + [answer], PutLands(t), w);
    RunNext(s, asked + [answer] + [PutLands(t)], Record(t), w);
  }

  /** A request for a URL whose tag is in the index, answered 304. */
  lemma RevalidationReads(s: State, before: seq<Action>, t: nat, u: string, w: World) returns (actions: seq<Action>)
    requires HonestRun(s, before, w)
    requires var s1 := Run(s, before); t !in s1.tasks && u in s1.index && s1.index[u] != ""
    ensures HonestRun(s, actions, w)
    ensures var s1 := Run(s, before); Run(s, actions) == s1.(tasks := s1.tasks[t := Task(u, Reading(s1.index[u]))])
  {
    hide Run, HonestRun, Base, Asks;
    AskedIs(s, before, t, u, w);
    var answer := Receive(t, Response(304, "", 0, ""), 0);
    RunNext(s, Asks(before, t, u), answer, w);
    actions := Asks(before, t, u) + [answer];
  }

  /** Task `t` was answered 304 and the store answers: what it hands on is the body its tag stands for. */
  ghost predicate ServedRight(s: State, t: nat, w: World) {
    t in s.tasks && s.tasks[t].phase.Reading? ==>
      Step(s, GetLands(t, true)).tasks[t].phase
      == Finished(Some(w.body(s.tasks[t].url, s.tasks[t].phase.sent)))
  }

  ghost predicate AlwaysServedRight(w: World) {
    forall actions: seq<Action>, t: nat | HonestRun(EMPTY, actions, w) :: ServedRight(Run(EMPTY, actions), t, w)
  }

  lemma CollisionServesTheOtherPage(u: string, e: string, v: string, f: string, w: World)
    requires w.sends(u, e) && w.sends(v, f) && e != "" && f != ""
    requires Base(u, e) == Base(v, f) && w.body(u, e) != w.body(v, f)
    ensures !AlwaysServedRight(w)
  {
    hide Run, HonestRun, Fetch;
    assert u != v by { if u == v { KeysCollideIff(u, e, v, f); AfterPrefix(u, "|" + e); AfterPrefix(v, "|" + f); SameTail(e, f); } }
    assert Run(EMPTY, []) == EMPTY && HonestRun(EMPTY, [], w) by { NothingRun(w); }
    FetchCaches(EMPTY, [], 0, u, e, w);
    var first := Fetch([], 0, u, e, w.body(u, e));
    FetchCaches(EMPTY, first, 1, v, f, w);
    var second := Fetch(first, 1, v, f, w.body(v, f));
    var actions := RevalidationReads(EMPTY, second, 2, u, w);
    assert !ServedRight(Run(EMPTY, actions), 2, w);
  }

  lemma SameTail(e: string, f: string)
    ensures "|" + e == "|" + f ==> e == f
  {
    AfterPrefix("|", e);
    AfterPrefix("|", f);
  }

  lemma NothingRun(w: World)
    ensures Run(EMPTY, []) == EMPTY && HonestRun(EMPTY, [], w)
  {
  }

  /** The cache is right in every crawl history iff no two tags in use share a key and differ in body. */
  lemma SafeIff(w: World)
    requires forall u, e | w.sends(u, e) :: e != ""
    ensures KeysAreSafe(w) <==> AlwaysServedRight(w)
  {
    hide Run, HonestRun, Base, Step;
    if KeysAreSafe(w) {
      forall actions: seq<Action>, t: nat | HonestRun(EMPTY, actions, w)
        ensures ServedRight(Run(EMPTY, actions), t, w)
      {
        var s := Run(EMPTY, actions);
        if t in s.tasks && s.tasks[t].phase.Reading? { NotModifiedIsServed(EMPTY, actions, t, w); }
      }
    } else {
      var u, e, v, f :| w.sends(u, e) && w.sends(v, f) && Base(u, e) == Base(v, f) && w.body(u, e) != w.body(v, f);
      CollisionServesTheOtherPage(u, e, v, f, w);
    }
  }

  /** In particular it is right for servers whose tags have the standard's form. */
  lemma StandardTagsAreSafe(w: World)
    requires forall u, e | w.sends(u, e) :: EntityTag(e)
    ensures AlwaysServedRight(w)
  {
    hide Base, AlwaysServedRight;
    forall u, e, v, f | w.sends(u, e) && w.sends(v, f) && Base(u, e) == Base(v, f)
      ensures w.body(u, e) == w.body(v, f)
    {
      EntityTagsNeverCollide(u, e, v, f);
    }
    SafeIff(w);
  }

  // ----- the cache is used -----

  /** A full response within the limit. */
  predicate FullResponse(r: Response, maxBytes: nat) {
    r.Response? && r.code == 200 && r.contentLength <= maxBytes && |r.body| <= maxBytes
  }

  /** A fetch from its request to its end, undisturbed: what it sent, and where it ends. */
  function Fetched(s: State, t: nat, url: string, r: Response, maxBytes: nat): State {
    var sent := Step(Step(s, Spawn(t, url)), Send(t));
    Step(Step(Step(Step(sent, Receive(t, r, maxBytes)), PutLands(t)), Record(t)), GetLands(t, true))
  }

  /** A fetch that gets the page delivers its body, and if the page had a tag the index then names it and the store
      has the body. */
  lemma PageIsDelivered(s: State, t: nat, url: string, r: Response, maxBytes: nat)
    requires t !in s.tasks && FullResponse(r, maxBytes)
    ensures var s' := Fetched(s, t, url, r, maxBytes); (
      && t in s'.tasks && s'.tasks[t].phase == Finished(Some(r.body))
      && (r.etag != "" ==> url in s'.index && s'.index[url] == r.etag
                           && Base(url, r.etag) in s'.store && s'.store[Base(url, r.etag)] == r.body)
      && (r.etag == "" ==> s'.index == s.index && s'.store == s.store))
  {
  }

  /** The next fetch of a page with a tag sends that tag, and a 304 to it delivers the body stored. */
  lemma SecondFetchIsServed(s: State, t: nat, u: nat, url: string, r: Response, again: Response, maxBytes: nat)
    requires t !in s.tasks && u !in s.tasks && u != t && FullResponse(r, maxBytes) && r.etag != ""
    requires again.Response? && again.code == 304
    ensures var s1 := Fetched(s, t, url, r, maxBytes);
      var asked := Step(Step(s1, Spawn(u, url)), Send(u));
      && u in asked.tasks && asked.tasks[u].phase == Requested(r.etag)
      && var s2 := Fetched(s1, u, url, again, maxBytes);
        u in s2.tasks && s2.tasks[u].phase == Finished(Some(r.body))
  {
    PageIsDelivered(s, t, url, r, maxBytes);
    FetchedTasks(s, t, url, r, maxBytes, u);
    hide Fetched;
    StoredIsServed(Fetched(s, t, url, r, maxBytes), u, url, r.etag, again, maxBytes);
  }

  lemma FetchedTasks(s: State, t: nat, url: string, r: Response, maxBytes: nat, u: nat)
    requires u !in s.tasks && u != t
    ensures u !in Fetched(s, t, url, r, maxBytes).tasks
  {
    hide Step;
    var s1 := Step(s, Spawn(t, url));
    var s2 := Step(s1, Send(t));
    var s3 := Step(s2, Receive(t, r, maxBytes));
    var s4 := Step(s3, PutLands(t));
    var s5 := Step(s4, Record(t));
    NotSpawned(s, Spawn(t, url), u);
    NotSpawned(s1, Send(t), u);
    NotSpawned(s2, Receive(t, r, maxBytes), u);
    NotSpawned(s3, PutLands(t), u);
    NotSpawned(s4, Record(t), u);
    NotSpawned(s5, GetLands(t, true), u);
  }

  lemma NotSpawned(s: State, a: Action, u: nat)
    requires u !in s.tasks && !(a.Spawn? && a.t == u)
    ensures u !in Step(s, a).tasks
  {
  }

  lemma StoredIsServed(s: State, u: nat, url: string, etag: string, again: Response, maxBytes: nat)
    requires u !in s.tasks && url in s.index && s.index[url] == etag != "" && Base(url, etag) in s.store
    requires again.Response? && again.code == 304
    ensures var asked := Step(Step(s, Spawn(u, url)), Send(u)); u in asked.tasks && asked.tasks[u].phase == Requested(etag)
    ensures var s' := Fetched(s, u, url, again, maxBytes);
      u in s'.tasks && s'.tasks[u].phase == Finished(Some(s.store[Base(url, etag)]))
  {
    hide Base;
  }

  /** Nothing else is delivered: an error, another status, or a body past the limit ends a fetch without a document. */
  lemma OtherwiseNothing(s: State, t: nat, url: string, r: Response, maxBytes: nat)
    requires t !in s.tasks && !FullResponse(r, maxBytes) && !(r.Response? && r.code == 304 && CachedTag(s.index, url) != "")
    ensures var s' := Fetched(s, t, url, r, maxBytes);
      t in s'.tasks && s'.tasks[t].phase == Finished(None) && s'.index == s.index && s'.store == s.store
  {
  }
}
