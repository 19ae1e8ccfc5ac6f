/** app/services/comparison_translation.py: the Hebrew cache and the background tasks that fill it. */
module Pretranslation {
  import opened Wrappers
  import opened Text
  import opened BoilerplateTable
  import opened HebrewBoilerplate

  type Fields = map<string, string>

  /** A completed run's prose: the rationale, and per issue the seven prose fields by name. */
  datatype Issue = Issue(id: string, prose: map<string, Option<string>>)

  const PROSE_KEYS: seq<string> :=
    ["current_summary", "gaap_summary", "ifrs_summary", "differences", "conversion_impact",
     "gaap_verification", "ifrs_verification"]

  // ----- which fields still need translating -----

  /** A field is sent to the translator when it is not blank and holds no Hebrew yet. */
  predicate NeedsTranslation(v: Option<string>) {
    v.Some? && v.value != "" && Strip(v.value) != "" && !ContainsHebrew(v.value)
  }

  function Prose(i: Issue, key: string): Option<string> { if key in i.prose then i.prose[key] else None }

  /** The entry a field contributes to the flat dictionary. */
  function Put(flat: Fields, key: string, v: Option<string>): Fields {
    if NeedsTranslation(v) then flat[key := v.value] else flat
  }

  function KeyOf(i: Issue, n: nat): string
    requires n < |PROSE_KEYS|
  {
    i.id + "." + PROSE_KEYS[n]
  }

  function PutIssue(flat: Fields, i: Issue, n: nat): Fields
    requires n <= |PROSE_KEYS|
  {
    if n == 0 then flat else Put(PutIssue(flat, i, n - 1), KeyOf(i, n - 1), Prose(i, PROSE_KEYS[n - 1]))
  }

  function PutIssues(flat: Fields, issues: seq<Issue>): Fields {
    if issues == [] then flat
    else PutIssue(PutIssues(flat, issues[..|issues| - 1]), issues[|issues| - 1], |PROSE_KEYS|)
  }

  function Flat(rationale: Option<string>, issues: seq<Issue>): Fields {
    PutIssues(Put(map[], "_run.rationale", rationale), issues)
  }

  /** The inner loop over the prose fields of one issue. */
  method FlattenIssue(flat: Fields, i: Issue) returns (r: Fields)
    ensures r == PutIssue(flat, i, |PROSE_KEYS|)
  {
    hide PROSE_KEYS, NeedsTranslation, Prose;
    r := flat;
    for n := 0 to |PROSE_KEYS|
      invariant r == PutIssue(flat, i, n)
    {
      var v := Prose(i, PROSE_KEYS[n]);
      NeedsSome(v);
      if NeedsTranslation(v) { r := r[i.id + "." + PROSE_KEYS[n] := v.value]; }
    }
  }

  /** `_flatten_for_translation`. */
  method Flatten(rationale: Option<string>, issues: seq<Issue>) returns (flat: Fields)
    ensures flat == Flat(rationale, issues)
  {
    hide PROSE_KEYS, NeedsTranslation, PutIssue;
    flat := map[];
    NeedsSome(rationale);
    if NeedsTranslation(rationale) { flat := flat["_run.rationale" := rationale.value]; }
    ghost var start := flat;
    for j := 0 to |issues|
      invariant flat == PutIssues(start, issues[..j])
    {
      flat := FlattenIssue(flat, issues[j]);
      assert issues[..j + 1][..j] == issues[..j] && issues[..j + 1][j] == issues[j];
    }
    TakeAll(issues);
  }

  /** Every field sent out is Hebrew-free and not blank. */
  ghost predicate Sources(flat: Fields) { forall k | k in flat :: NeedsTranslation(Some(flat[k])) }

  lemma FlatIsSources(rationale: Option<string>, issues: seq<Issue>)
    ensures Sources(Flat(rationale, issues))
  {
    PutIsSources(map[], "_run.rationale", rationale);
    PutIssuesIsSources(Put(map[], "_run.rationale", rationale), issues);
  }

  lemma PutIsSources(flat: Fields, key: string, v: Option<string>)
    requires Sources(flat)
    ensures Sources(Put(flat, key, v))
  {
    hide NeedsTranslation;
    NeedsSome(v);
    assert NeedsTranslation(v) ==> v == Some(v.value);
  }

  lemma {:induction false} PutIssuesIsSources(flat: Fields, issues: seq<Issue>)
    requires Sources(flat)
    ensures Sources(PutIssues(flat, issues))
  {
    hide NeedsTranslation, Sources, PutIssue;
    if issues != [] {
      PutIssuesIsSources(flat, issues[..|issues| - 1]);
      PutIssueIsSources(PutIssues(flat, issues[..|issues| - 1]), issues[|issues| - 1], |PROSE_KEYS|);
    }
  }

  lemma {:induction false} PutIssueIsSources(flat: Fields, i: Issue, n: nat)
    requires n <= |PROSE_KEYS| && Sources(flat)
    ensures Sources(PutIssue(flat, i, n))
  {
    hide Put, Sources, PROSE_KEYS;
    if n > 0 {
      PutIssueIsSources(flat, i, n - 1);
      PutIsSources(PutIssue(flat, i, n - 1), KeyOf(i, n - 1), Prose(i, PROSE_KEYS[n - 1]));
    }
  }

  // ----- the dictionary is complete -----

  ghost predicate Entry(m: Fields, k: string, v: string) { k in m && m[k] == v }

  /** Prose field `n` of the issue wants translation, and has key `k` and text `v`. */
  ghost predicate FieldOf(i: Issue, n: nat, k: string, v: string)
    requires n < |PROSE_KEYS|
  {
    k == KeyOf(i, n) && Prose(i, PROSE_KEYS[n]) == Some(v) && NeedsTranslation(Some(v))
  }

  /** One of the first `n` prose fields of the issue. */
  ghost predicate SomeField(i: Issue, n: nat, k: string, v: string)
    requires n <= |PROSE_KEYS|
  {
    exists m: nat :: m < n && FieldOf(i, m, k, v)
  }

  predicate DotFree(s: string) { forall i | 0 <= i < |s| :: s[i] != '.' }

  lemma ProseKeysAreDistinct()
    ensures forall n: nat | n < |PROSE_KEYS| :: DotFree(PROSE_KEYS[n]) && PROSE_KEYS[n] != "rationale"
    ensures forall m: nat, n: nat | m < n < |PROSE_KEYS| :: PROSE_KEYS[m] != PROSE_KEYS[n]
  {
    assert PROSE_KEYS[0][0] == 'c' && PROSE_KEYS[1][0] == 'g' && PROSE_KEYS[2][0] == 'i' && PROSE_KEYS[3][0] == 'd';
    assert PROSE_KEYS[4][1] == 'o' && PROSE_KEYS[5][5] == 'v' && PROSE_KEYS[6][5] == 'v';
    assert PROSE_KEYS[0][1] == 'u' && PROSE_KEYS[1][5] == 's' && PROSE_KEYS[2][5] == 's' && PROSE_KEYS[4][0] == 'c';
    assert PROSE_KEYS[5][0] == 'g' && PROSE_KEYS[6][0] == 'i';
  }

  lemma LastDot(a: string, x: string)
    requires DotFree(x)
    ensures var s := a + "." + x; s[|a|] == '.' && forall i | |a| < i < |s| :: s[i] != '.'
  {
    assert forall i | |a| < i < |a + "." + x| :: (a + "." + x)[i] == x[i - |a| - 1];
  }

  /** An id and a dot-free name can be told apart in their joined key. */
  lemma KeysSplit(a: string, x: string, b: string, y: string)
    requires DotFree(x) && DotFree(y) && a + "." + x == b + "." + y
    ensures a == b && x == y
  {
    var s := a + "." + x;
    LastDot(a, x);
    LastDot(b, y);
    assert |a| == |b|;
    assert a == s[..|a|] && x == s[|a| + 1..] && b == s[..|b|] && y == s[|b| + 1..];
  }

  lemma KeysDiffer(i: Issue, m: nat, j: Issue, n: nat)
    requires m < |PROSE_KEYS| && n < |PROSE_KEYS| && KeyOf(i, m) == KeyOf(j, n)
    ensures i.id == j.id && m == n
  {
    hide PROSE_KEYS;
    ProseKeysAreDistinct();
    KeysSplit(i.id, PROSE_KEYS[m], j.id, PROSE_KEYS[n]);
  }

  lemma NotTheRationale(i: Issue, n: nat)
    requires n < |PROSE_KEYS|
    ensures KeyOf(i, n) != "_run.rationale"
  {
    hide PROSE_KEYS;
    ProseKeysAreDistinct();
    assert "_run.rationale" == "_run" + "." + "rationale";
    assert DotFree("rationale");
    if KeyOf(i, n) == "_run.rationale" { KeysSplit(i.id, PROSE_KEYS[n], "_run", "rationale"); }
  }

  lemma {:induction false} PutIssueEntries(flat: Fields, i: Issue, n: nat)
    requires n <= |PROSE_KEYS| && forall m: nat | m < |PROSE_KEYS| :: KeyOf(i, m) !in flat
    ensures forall k, v :: Entry(PutIssue(flat, i, n), k, v) <==> Entry(flat, k, v) || SomeField(i, n, k, v)
  {
    hide PROSE_KEYS, NeedsTranslation, KeyOf, Prose;
    if n > 0 {
      PutIssueEntries(flat, i, n - 1);
      PutOne(flat, PutIssue(flat, i, n - 1), i, n);
    }
  }

  /** `flat` with the first `n - 1` prose fields of an issue, and then with the next. */
  lemma PutOne(flat: Fields, before: Fields, i: Issue, n: nat)
    requires 0 < n <= |PROSE_KEYS| && KeyOf(i, n - 1) !in flat
    requires forall k, v :: Entry(before, k, v) <==> Entry(flat, k, v) || SomeField(i, n - 1, k, v)
    ensures var after := Put(before, KeyOf(i, n - 1), Prose(i, PROSE_KEYS[n - 1]));
      forall k, v :: Entry(after, k, v) <==> Entry(flat, k, v) || SomeField(i, n, k, v)
  {
    hide PROSE_KEYS, NeedsTranslation, Prose, KeyOf;
    var key, value := KeyOf(i, n - 1), Prose(i, PROSE_KEYS[n - 1]);
    NeedsSome(value);
    if key in before {
      assert Entry(before, key, before[key]);
      NotAgain(i, n, before[key]);
    }
    forall k, v ensures SomeField(i, n, k, v) <==> SomeField(i, n - 1, k, v) || FieldOf(i, n - 1, k, v) {}
  }

  lemma NotAgain(i: Issue, n: nat, v: string)
    requires 0 < n <= |PROSE_KEYS|
    ensures !SomeField(i, n - 1, KeyOf(i, n - 1), v)
  {
    hide PROSE_KEYS, KeyOf, Prose, NeedsTranslation;
    var last, key := n - 1, KeyOf(i, n - 1);
    forall m: nat | m < last ensures !FieldOf(i, m, key, v) {
      if KeyOf(i, m) == key { KeysDiffer(i, m, i, last); }
    }
  }

  ghost predicate DistinctIds(issues: seq<Issue>) {
    forall i, j | 0 <= i < j < |issues| :: issues[i].id != issues[j].id
  }

  /** A field of one of the issues. */
  ghost predicate SomeIssueField(issues: seq<Issue>, k: string, v: string) {
    exists j :: 0 <= j < |issues| && SomeField(issues[j], |PROSE_KEYS|, k, v)
  }

  ghost predicate RationaleField(rationale: Option<string>, k: string, v: string) {
    k == "_run.rationale" && rationale == Some(v) && NeedsTranslation(Some(v))
  }

  lemma {:induction false} PutIssuesEntries(flat: Fields, issues: seq<Issue>)
    requires DistinctIds(issues)
    requires forall i: Issue, m: nat | m < |PROSE_KEYS| :: KeyOf(i, m) !in flat
    ensures forall k, v :: Entry(PutIssues(flat, issues), k, v) <==> Entry(flat, k, v) || SomeIssueField(issues, k, v)
  {
    hide PROSE_KEYS, KeyOf, PutIssue, SomeField;
    if issues != [] {
      var n := |issues| - 1;
      var before, last := PutIssues(flat, issues[..n]), issues[n];
      PutIssuesEntries(flat, issues[..n]);
      forall m: nat | m < |PROSE_KEYS| ensures KeyOf(last, m) !in before {
        if KeyOf(last, m) in before {
          assert Entry(before, KeyOf(last, m), before[KeyOf(last, m)]);
          KeyOfOther(issues, n, m, before[KeyOf(last, m)]);
        }
      }
      PutIssueEntries(before, last, |PROSE_KEYS|);
      SomeIssueNext(issues);
    }
  }

  lemma SomeIssueNext(issues: seq<Issue>)
    requires issues != []
    ensures var n := |issues| - 1; (forall k, v :: (SomeIssueField(issues, k, v)
      <==> SomeIssueField(issues[..n], k, v) || SomeField(issues[n], |PROSE_KEYS|, k, v)))
  {
    hide PROSE_KEYS, SomeField;
    var n := |issues| - 1;
    assert forall j | 0 <= j < n :: issues[..n][j] == issues[j];
  }

  lemma KeyOfOther(issues: seq<Issue>, n: nat, m: nat, v: string)
    requires n < |issues| && m < |PROSE_KEYS| && DistinctIds(issues)
    ensures !SomeIssueField(issues[..n], KeyOf(issues[n], m), v)
  {
    hide PROSE_KEYS, KeyOf, Prose, NeedsTranslation;
    forall j, l: nat | 0 <= j < n && l < |PROSE_KEYS| ensures !FieldOf(issues[j], l, KeyOf(issues[n], m), v) {
      if KeyOf(issues[j], l) == KeyOf(issues[n], m) { KeysDiffer(issues[j], l, issues[n], m); }
    }
    assert forall j | 0 <= j < n :: issues[..n][j] == issues[j];
  }

  /** The dictionary holds exactly the fields that want translation, each under its own key: the run's
      rationale and, for each issue and prose name, that issue's text. */
  lemma FlatIsComplete(rationale: Option<string>, issues: seq<Issue>)
    requires DistinctIds(issues)
    ensures forall k, v :: Entry(Flat(rationale, issues), k, v) <==> (RationaleField(rationale, k, v) || SomeIssueField(issues, k, v))
  {
    hide PROSE_KEYS, NeedsTranslation, KeyOf, SomeIssueField;
    var flat := Put(map[], "_run.rationale", rationale);
    NeedsSome(rationale);
    forall i: Issue, m: nat | m < |PROSE_KEYS| ensures KeyOf(i, m) !in flat { NotTheRationale(i, m); }
    PutIssuesEntries(flat, issues);
  }

  lemma NeedsSome(v: Option<string>)
    ensures NeedsTranslation(v) ==> v.Some?
  {
  }

  // ----- one round of translation -----

  /** The model's cleaned-up answers by field, `None` for a call that failed. Anything can come back. */
  type Answers = string -> Option<string>

  /** An answer counts as a translation when it is not empty and holds Hebrew. */
  function Accepted(answer: Option<string>): Option<string> {
    if answer.Some? && answer.value != "" && ContainsHebrew(answer.value) then answer else None
  }

  /** The translation of a field, or its English source. */
  function Translated(key: string, source: string, answers: Answers): string {
    if source == "" || Strip(source) == "" then source
    else match Accepted(answers(key)) case Some(t) => t case None => source
  }

  /** `_translate_to_hebrew`. */
  method TranslateToHebrew(items: Fields, answers: Answers) returns (out: Fields)
    ensures out == TranslatedAll(items, answers)
  {
    hide Accepted, ContainsHebrew, Strip;
    out := items;
    var todo := items.Keys;
    while todo != {}
      invariant todo <= items.Keys == out.Keys
      invariant forall k | k in items :: out[k] == if k in todo then items[k] else Translated(k, items[k], answers)
      decreases todo
    {
      var k :| k in todo;
      todo := todo - {k};
      if items[k] != "" && Strip(items[k]) != "" {
        var result := Accepted(answers(k));
        if result.Some? { out := out[k := result.value]; }
      }
    }
  }

  /** A field was translated when its text is there and has changed. */
  predicate IsFresh(missing: Fields, k: string, v: string) { v != "" && !(k in missing && v == missing[k]) }

  function Fresh(missing: Fields, translated: Fields): set<string> {
    set k | k in translated && IsFresh(missing, k, translated[k])
  }

  function Localized(v: string): string {
    hide Shaped;
    TableIsShaped();
    var out := LocalizeWith(v, PAIRS);
    if out == "" then v else out
  }

  function Merged(cache: Fields, missing: Fields, translated: Fields): Fields {
    cache + Picked(translated, Fresh(missing, translated))
  }

  /** The merge loop of `pretranslate_run_to_hebrew`. */
  method Merge(snapshot: Fields, missing: Fields, translated: Fields) returns (cache: Fields, added: nat)
    ensures cache == Merged(snapshot, missing, translated)
    ensures added == |Fresh(missing, translated)|
  {
    hide LocalizeWith, PAIRS, Localized, IsFresh, Fresh;
    cache, added := snapshot, 0;
    var todo := translated.Keys;
    ghost var hits := Fresh(missing, translated);
    FreshIs(missing, translated);
    while todo != {}
      invariant todo <= translated.Keys
      invariant added == |hits - todo|
      invariant cache == snapshot + Picked(translated, hits - todo)
      decreases todo
    {
      var k :| k in todo;
      LeaveTodo(hits, todo, k);
      todo := todo - {k};
      if IsFresh(missing, k, translated[k]) {
        NotEmpty(missing, k, translated[k]);
        var v := LocalizeBoilerplate(Some(translated[k]), "he");
        LocalizedIs(translated[k], v);
        PickOne(snapshot, translated, hits - (todo + {k}), k);
        cache := cache[k := if v.Some? && v.value != "" then v.value else translated[k]];
        added := added + 1;
      }
    }
    assert hits - {} == hits;
  }

  function Picked(translated: Fields, ks: set<string>): Fields
    requires ks <= translated.Keys
  {
    map k | k in ks :: Localized(translated[k])
  }

  lemma PickOne(snapshot: Fields, translated: Fields, ks: set<string>, k: string)
    requires ks <= translated.Keys && k in translated
    ensures snapshot + Picked(translated, ks + {k}) == (snapshot + Picked(translated, ks))[k := Localized(translated[k])]
  {
    hide Localized;
  }

  lemma FreshIs(missing: Fields, translated: Fields)
    ensures Fresh(missing, translated) <= translated.Keys
    ensures Fresh(missing, translated) - translated.Keys == {}
    ensures forall k | k in translated :: k in Fresh(missing, translated) <==> IsFresh(missing, k, translated[k])
    ensures Picked(translated, {}) == map[]
  {
    hide IsFresh;
  }

  lemma NotEmpty(missing: Fields, k: string, v: string)
    requires IsFresh(missing, k, v)
    ensures v != ""
  {
  }

  /** Done keys grow by the one that leaves the to-do set, if it is fresh. */
  lemma LeaveTodo(hits: set<string>, todo: set<string>, k: string)
    requires k in todo
    ensures todo - {k} + {k} == todo
    ensures k in hits ==> hits - (todo - {k}) == hits - todo + {k} && |hits - (todo - {k})| == |hits - todo| + 1
    ensures k !in hits ==> hits - (todo - {k}) == hits - todo
  {
    if k in hits { assert hits - (todo - {k}) == hits - todo + {k}; }
  }

  lemma LocalizedIs(s: string, v: Option<string>)
    requires AllShaped(PAIRS) && s != "" && v == Some(LocalizeWith(s, PAIRS))
    ensures Localized(s) == if v.value != "" then v.value else s
  {
  }

  /** Localizing keeps a translation Hebrew. */
  lemma LocalizedIsHebrew(t: string)
    requires ContainsHebrew(t)
    ensures ContainsHebrew(Localized(t))
  {
    hide PAIRS, LocalizeWith;
    TableIsShaped();
    LocalizeKeepsHebrew(t, PAIRS);
  }

  function TranslatedAll(missing: Fields, answers: Answers): Fields {
    map k | k in missing :: Translated(k, missing[k], answers)
  }

  /** A field is fresh exactly when its translation succeeded, and what is cached for it is Hebrew:
      sources hold no Hebrew, translations do, and localizing keeps it. */
  lemma FreshMeansTranslated(missing: Fields, answers: Answers, k: string)
    requires Sources(missing) && k in missing
    ensures k in Fresh(missing, TranslatedAll(missing, answers)) <==> Accepted(answers(k)).Some?
    ensures k in Fresh(missing, TranslatedAll(missing, answers))
            ==> ContainsHebrew(Localized(TranslatedAll(missing, answers)[k]))
  {
    hide Localized, Strip, ContainsHebrew;
    assert NeedsTranslation(Some(missing[k]));
    var t := Translated(k, missing[k], answers);
    if Accepted(answers(k)).Some? {
      LocalizedIsHebrew(t);
    }
  }

  // ----- which texts count -----

  /** A text wants translation iff it has a word and no character of the Hebrew block; an answer is accepted iff it has
      one. */
  lemma WantsIff(v: Option<string>)
    ensures NeedsTranslation(v) <==>
      v.Some? && Words(v.value) != [] && forall i | 0 <= i < |v.value| :: !('\U{590}' <= v.value[i] <= '\U{5ff}')
    ensures Accepted(v) == v || Accepted(v) == None
    ensures Accepted(v).Some? <==> v.Some? && exists i :: 0 <= i < |v.value| && '\U{590}' <= v.value[i] <= '\U{5ff}'
  {
    hide Strip, Words;
    if v.Some? {
      NoWordsIffBlank(v.value);
      if v.value == "" { NoParts(); }
    }
  }
}
