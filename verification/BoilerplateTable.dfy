/** app/services/comparison_translation.py: the canned English phrases and their fixed Hebrew. */
module BoilerplateTable {

  /** The Hebrew Unicode block. */
  predicate IsHebrew(c: char) { '\U{590}' <= c <= '\U{5ff}' }
  predicate IsLower(c: char) { 'a' <= c <= 'z' }

  ghost predicate HebrewFree(s: string) { forall i | 0 <= i < |s| :: !IsHebrew(s[i]) }
  ghost predicate LowerFree(s: string) { forall i | 0 <= i < |s| :: !IsLower(s[i]) }

  /** `_contains_hebrew`. */
  predicate ContainsHebrew(s: string) { exists i :: 0 <= i < |s| && IsHebrew(s[i]) }

  // ----- the table, longest key first; the verifier prefix is last -----

  const EN_COMPARE_1 :=
    "Compare the two summaries " + "above. The US GAAP excerpts "
  const EN_COMPARE_2 :=
    "emphasize the FASB ASC " + "measurement rules; the IFRS "
  const EN_COMPARE_3 :=
    "excerpts apply the IASB " + "principles-based approach. See "
  const EN_COMPARE_4 :=
    "the side-by-side citations for " + "the controlling paragraphs."
  const EN_COMPARE := EN_COMPARE_1 + EN_COMPARE_2 + EN_COMPARE_3 + EN_COMPARE_4
  const HE_COMPARE_1 :=
    "השוו בין שני הסיכומים שלמעלה. " + "הקטעים של US GAAP מדגישים את "
  const HE_COMPARE_2 :=
    "כללי המדידה של FASB ASC; " + "הקטעים של IFRS מיישמים את "
  const HE_COMPARE_3 :=
    "הגישה מבוססת-העקרונות של IASB. " + "ראו את הציטוטים צד-לצד עבור "
  const HE_COMPARE_4 :=
    "הפסקאות הקובעות."
  const HE_COMPARE := HE_COMPARE_1 + HE_COMPARE_2 + HE_COMPARE_3 + HE_COMPARE_4

  const EN_NO_GAAP_1 :=
    "No US GAAP (FASB ASC) " + "standards quotes were "
  const EN_NO_GAAP_2 :=
    "retrieved for this side — " + "verification not possible. "
  const EN_NO_GAAP_3 :=
    "Treat the summary as based on " + "the model's general knowledge "
  const EN_NO_GAAP_4 :=
    "only."
  const EN_NO_GAAP := EN_NO_GAAP_1 + EN_NO_GAAP_2 + EN_NO_GAAP_3 + EN_NO_GAAP_4
  const HE_NO_GAAP_1 :=
    "לא אותרו ציטוטי תקני US GAAP " + "(FASB ASC) עבור צד זה — לא "
  const HE_NO_GAAP_2 :=
    "ניתן לבצע אימות. יש להתייחס " + "לסיכום כאל מבוסס על ידע כללי "
  const HE_NO_GAAP_3 :=
    "של המודל בלבד."
  const HE_NO_GAAP := HE_NO_GAAP_1 + HE_NO_GAAP_2 + HE_NO_GAAP_3

  const EN_NO_IFRS_1 :=
    "No IFRS / IAS standards quotes " + "were retrieved for this side — "
  const EN_NO_IFRS_2 :=
    "verification not possible. " + "Treat the summary as based on "
  const EN_NO_IFRS_3 :=
    "the model's general knowledge " + "only."
  const EN_NO_IFRS := EN_NO_IFRS_1 + EN_NO_IFRS_2 + EN_NO_IFRS_3
  const HE_NO_IFRS_1 :=
    "לא אותרו ציטוטי תקני IFRS / " + "IAS עבור צד זה — לא ניתן לבצע "
  const HE_NO_IFRS_2 :=
    "אימות. יש להתייחס לסיכום כאל " + "מבוסס על ידע כללי של המודל " + "בלבד."
  const HE_NO_IFRS := HE_NO_IFRS_1 + HE_NO_IFRS_2

  const EN_EMPTY_GAAP_1 :=
    "Citations were returned for US " + "GAAP (FASB ASC) but every "
  const EN_EMPTY_GAAP_2 :=
    "quote was empty — verification " + "not possible against empty "
  const EN_EMPTY_GAAP_3 :=
    "source text."
  const EN_EMPTY_GAAP := EN_EMPTY_GAAP_1 + EN_EMPTY_GAAP_2 + EN_EMPTY_GAAP_3
  const HE_EMPTY_GAAP_1 :=
    "התקבלו ציטוטים עבור US GAAP " + "(FASB ASC) אך כל ציטוט היה ריק "
  const HE_EMPTY_GAAP_2 :=
    "— לא ניתן לבצע אימות מול טקסט " + "מקור ריק."
  const HE_EMPTY_GAAP := HE_EMPTY_GAAP_1 + HE_EMPTY_GAAP_2

  const EN_EMPTY_IFRS_1 :=
    "Citations were returned for " + "IFRS / IAS but every quote was "
  const EN_EMPTY_IFRS_2 :=
    "empty — verification not " + "possible against empty source " + "text."
  const EN_EMPTY_IFRS := EN_EMPTY_IFRS_1 + EN_EMPTY_IFRS_2
  const HE_EMPTY_IFRS_1 :=
    "התקבלו ציטוטים עבור IFRS / IAS " + "אך כל ציטוט היה ריק — לא ניתן "
  const HE_EMPTY_IFRS_2 :=
    "לבצע אימות מול טקסט מקור ריק."
  const HE_EMPTY_IFRS := HE_EMPTY_IFRS_1 + HE_EMPTY_IFRS_2

  const EN_ONLY_GAAP_1 :=
    "Only US GAAP standards were " + "retrieved; IFRS standards "
  const EN_ONLY_GAAP_2 :=
    "corpus may not be loaded."
  const EN_ONLY_GAAP := EN_ONLY_GAAP_1 + EN_ONLY_GAAP_2
  const HE_ONLY_GAAP :=
    "אותרו רק תקני US GAAP; ייתכן " + "שמאגר תקני IFRS לא נטען."

  const EN_ONLY_IFRS_1 :=
    "Only IFRS standards were " + "retrieved; US GAAP corpus may "
  const EN_ONLY_IFRS_2 :=
    "not be loaded."
  const EN_ONLY_IFRS := EN_ONLY_IFRS_1 + EN_ONLY_IFRS_2
  const HE_ONLY_IFRS :=
    "אותרו רק תקני IFRS; ייתכן " + "שמאגר US GAAP לא נטען."

  const EN_SYNTHESIZED :=
    "[synthesized from model " + "knowledge — no standards " + "retrieved]"
  const HE_SYNTHESIZED :=
    "[סונתז מידע מהמודל — לא אותרו " + "תקנים]"

  const EN_FAILED :=
    "(verifier agent failed:"
  const HE_FAILED :=
    "(סוכן האימות נכשל:"

  type Pair = (string, string)

  const PAIRS: seq<Pair> :=
    [(EN_COMPARE, HE_COMPARE),
     (EN_NO_GAAP, HE_NO_GAAP),
     (EN_NO_IFRS, HE_NO_IFRS),
     (EN_EMPTY_GAAP, HE_EMPTY_GAAP),
     (EN_EMPTY_IFRS, HE_EMPTY_IFRS),
     (EN_ONLY_GAAP, HE_ONLY_GAAP),
     (EN_ONLY_IFRS, HE_ONLY_IFRS),
     (EN_SYNTHESIZED, HE_SYNTHESIZED),
     (EN_FAILED, HE_FAILED)]

  /** What every key has in common: no Hebrew, a lower-case second letter, and harmless ends. */
  ghost predicate KeyShape(k: string) {
    && |k| > 1 && HebrewFree(k) && IsLower(k[1])
    && k[0] !in [']', '.', ':'] && k[|k| - 1] !in ['[', '(']
  }

  /** What every replacement has in common: Hebrew at most one mark away from either end, and no
      lower-case Latin letter. */
  ghost predicate ValueShape(v: string) {
    && |v| > 1 && LowerFree(v)
    && (IsHebrew(v[0]) || (v[0] in ['[', '('] && IsHebrew(v[1])))
    && (IsHebrew(v[|v| - 1]) || (v[|v| - 1] in [']', '.', ':'] && IsHebrew(v[|v| - 2])))
  }

  ghost predicate Shaped(p: Pair) { KeyShape(p.0) && ValueShape(p.1) }

  // ----- the table has the shape -----

  lemma Pieces()
    ensures forall a, b {:trigger HebrewFree(a + b)} :: HebrewFree(a) && HebrewFree(b) ==> HebrewFree(a + b)
    ensures forall a, b {:trigger LowerFree(a + b)} :: LowerFree(a) && LowerFree(b) ==> LowerFree(a + b)
  {
  }

  lemma CompareKey1()
    ensures HebrewFree(EN_COMPARE_1)
  {
    Pieces();
  }

  lemma CompareKey2()
    ensures HebrewFree(EN_COMPARE_2)
  {
    Pieces();
  }

  lemma CompareKey3()
    ensures HebrewFree(EN_COMPARE_3)
  {
    Pieces();
  }

  lemma CompareKey4()
    ensures HebrewFree(EN_COMPARE_4)
  {
    Pieces();
  }

  lemma CompareKey()
    ensures HebrewFree(EN_COMPARE)
  {
    CompareKey1();
    CompareKey2();
    CompareKey3();
    CompareKey4();
    Pieces();
  }

  lemma CompareValue1()
    ensures LowerFree(HE_COMPARE_1)
  {
    Pieces();
  }

  lemma CompareValue2()
    ensures LowerFree(HE_COMPARE_2)
  {
    Pieces();
  }

  lemma CompareValue3()
    ensures LowerFree(HE_COMPARE_3)
  {
    Pieces();
  }

  lemma CompareValue4()
    ensures LowerFree(HE_COMPARE_4)
  {
    Pieces();
  }

  lemma CompareValue()
    ensures LowerFree(HE_COMPARE)
  {
    CompareValue1();
    CompareValue2();
    CompareValue3();
    CompareValue4();
    Pieces();
  }

  lemma NoGaapKey1()
    ensures HebrewFree(EN_NO_GAAP_1)
  {
    Pieces();
  }

  lemma NoGaapKey2()
    ensures HebrewFree(EN_NO_GAAP_2)
  {
    Pieces();
  }

  lemma NoGaapKey3()
    ensures HebrewFree(EN_NO_GAAP_3)
  {
    Pieces();
  }

  lemma NoGaapKey4()
    ensures HebrewFree(EN_NO_GAAP_4)
  {
    Pieces();
  }

  lemma NoGaapKey()
    ensures HebrewFree(EN_NO_GAAP)
  {
    NoGaapKey1();
    NoGaapKey2();
    NoGaapKey3();
    NoGaapKey4();
    Pieces();
  }

  lemma NoGaapValue1()
    ensures LowerFree(HE_NO_GAAP_1)
  {
    Pieces();
  }

  lemma NoGaapValue2()
    ensures LowerFree(HE_NO_GAAP_2)
  {
    Pieces();
  }

  lemma NoGaapValue3()
    ensures LowerFree(HE_NO_GAAP_3)
  {
    Pieces();
  }

  lemma NoGaapValue()
    ensures LowerFree(HE_NO_GAAP)
  {
    NoGaapValue1();
    NoGaapValue2();
    NoGaapValue3();
    Pieces();
  }

  lemma NoIfrsKey1()
    ensures HebrewFree(EN_NO_IFRS_1)
  {
    Pieces();
  }

  lemma NoIfrsKey2()
    ensures HebrewFree(EN_NO_IFRS_2)
  {
    Pieces();
  }

  lemma NoIfrsKey3()
    ensures HebrewFree(EN_NO_IFRS_3)
  {
    Pieces();
  }

  lemma NoIfrsKey()
    ensures HebrewFree(EN_NO_IFRS)
  {
    NoIfrsKey1();
    NoIfrsKey2();
    NoIfrsKey3();
    Pieces();
  }

  lemma NoIfrsValue1()
    ensures LowerFree(HE_NO_IFRS_1)
  {
    Pieces();
  }

  lemma NoIfrsValue2()
    ensures LowerFree(HE_NO_IFRS_2)
  {
    Pieces();
  }

  lemma NoIfrsValue()
    ensures LowerFree(HE_NO_IFRS)
  {
    NoIfrsValue1();
    NoIfrsValue2();
    Pieces();
  }

  lemma EmptyGaapKey1()
    ensures HebrewFree(EN_EMPTY_GAAP_1)
  {
    Pieces();
  }

  lemma EmptyGaapKey2()
    ensures HebrewFree(EN_EMPTY_GAAP_2)
  {
    Pieces();
  }

  lemma EmptyGaapKey3()
    ensures HebrewFree(EN_EMPTY_GAAP_3)
  {
    Pieces();
  }

  lemma EmptyGaapKey()
    ensures HebrewFree(EN_EMPTY_GAAP)
  {
    EmptyGaapKey1();
    EmptyGaapKey2();
    EmptyGaapKey3();
    Pieces();
  }

  lemma EmptyGaapValue1()
    ensures LowerFree(HE_EMPTY_GAAP_1)
  {
    Pieces();
  }

  lemma EmptyGaapValue2()
    ensures LowerFree(HE_EMPTY_GAAP_2)
  {
    Pieces();
  }

  lemma EmptyGaapValue()
    ensures LowerFree(HE_EMPTY_GAAP)
  {
    EmptyGaapValue1();
    EmptyGaapValue2();
    Pieces();
  }

  lemma EmptyIfrsKey1()
    ensures HebrewFree(EN_EMPTY_IFRS_1)
  {
    Pieces();
  }

  lemma EmptyIfrsKey2()
    ensures HebrewFree(EN_EMPTY_IFRS_2)
  {
    Pieces();
  }

  lemma EmptyIfrsKey()
    ensures HebrewFree(EN_EMPTY_IFRS)
  {
    EmptyIfrsKey1();
    EmptyIfrsKey2();
    Pieces();
  }

  lemma EmptyIfrsValue1()
    ensures LowerFree(HE_EMPTY_IFRS_1)
  {
    Pieces();
  }

  lemma EmptyIfrsValue2()
    ensures LowerFree(HE_EMPTY_IFRS_2)
  {
    Pieces();
  }

  lemma EmptyIfrsValue()
    ensures LowerFree(HE_EMPTY_IFRS)
  {
    EmptyIfrsValue1();
    EmptyIfrsValue2();
    Pieces();
  }

  lemma OnlyGaapKey1()
    ensures HebrewFree(EN_ONLY_GAAP_1)
  {
    Pieces();
  }

  lemma OnlyGaapKey2()
    ensures HebrewFree(EN_ONLY_GAAP_2)
  {
    Pieces();
  }

  lemma OnlyGaapKey()
    ensures HebrewFree(EN_ONLY_GAAP)
  {
    OnlyGaapKey1();
    OnlyGaapKey2();
    Pieces();
  }

  lemma OnlyGaapValue()
    ensures LowerFree(HE_ONLY_GAAP)
  {
    Pieces();
  }

  lemma OnlyIfrsKey1()
    ensures HebrewFree(EN_ONLY_IFRS_1)
  {
    Pieces();
  }

  lemma OnlyIfrsKey2()
    ensures HebrewFree(EN_ONLY_IFRS_2)
  {
    Pieces();
  }

  lemma OnlyIfrsKey()
    ensures HebrewFree(EN_ONLY_IFRS)
  {
    OnlyIfrsKey1();
    OnlyIfrsKey2();
    Pieces();
  }

  lemma OnlyIfrsValue()
    ensures LowerFree(HE_ONLY_IFRS)
  {
    Pieces();
  }

  lemma SynthesizedKey()
    ensures HebrewFree(EN_SYNTHESIZED)
  {
    Pieces();
  }

  lemma SynthesizedValue()
    ensures LowerFree(HE_SYNTHESIZED)
  {
    Pieces();
  }

  lemma FailedKey()
    ensures HebrewFree(EN_FAILED)
  {
    Pieces();
  }

  lemma FailedValue()
    ensures LowerFree(HE_FAILED)
  {
    Pieces();
  }

  lemma CompareShape()
    ensures KeyShape(EN_COMPARE) && ValueShape(HE_COMPARE)
  {
    CompareKey();
    CompareValue();
  }

  lemma NoGaapShape()
    ensures KeyShape(EN_NO_GAAP) && ValueShape(HE_NO_GAAP)
  {
    NoGaapKey();
    NoGaapValue();
  }

  lemma NoIfrsShape()
    ensures KeyShape(EN_NO_IFRS) && ValueShape(HE_NO_IFRS)
  {
    NoIfrsKey();
    NoIfrsValue();
  }

  lemma EmptyGaapShape()
    ensures KeyShape(EN_EMPTY_GAAP) && ValueShape(HE_EMPTY_GAAP)
  {
    EmptyGaapKey();
    EmptyGaapValue();
  }

  lemma EmptyIfrsShape()
    ensures KeyShape(EN_EMPTY_IFRS) && ValueShape(HE_EMPTY_IFRS)
  {
    EmptyIfrsKey();
    EmptyIfrsValue();
  }

  lemma OnlyGaapShape()
    ensures KeyShape(EN_ONLY_GAAP) && ValueShape(HE_ONLY_GAAP)
  {
    OnlyGaapKey();
    OnlyGaapValue();
  }

  lemma OnlyIfrsShape()
    ensures KeyShape(EN_ONLY_IFRS) && ValueShape(HE_ONLY_IFRS)
  {
    OnlyIfrsKey();
    OnlyIfrsValue();
  }

  lemma SynthesizedShape()
    ensures KeyShape(EN_SYNTHESIZED) && ValueShape(HE_SYNTHESIZED)
  {
    SynthesizedKey();
    SynthesizedValue();
  }

  lemma FailedShape()
    ensures KeyShape(EN_FAILED) && ValueShape(HE_FAILED)
  {
    FailedKey();
    FailedValue();
  }

  lemma TableShape()
    ensures forall j | 0 <= j < |PAIRS| :: Shaped(PAIRS[j])
  {
    CompareShape();
    NoGaapShape();
    NoIfrsShape();
    EmptyGaapShape();
    EmptyIfrsShape();
    OnlyGaapShape();
    OnlyIfrsShape();
    SynthesizedShape();
    FailedShape();
  }
}
