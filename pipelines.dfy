/**
 * The scripts that run the normalizer: the rules each one applies, the
 * language choice of v3/trial.py, and the per-page step from the spans of
 * one page to its CSV rows.
 */
module Pipelines {
  import opened Text
  import opened Outcomes
  import opened Sorting
  import opened Years
  import opened Normalizer
  import opened Counter

  // --------------------------------------------------------- the profiles

  /** Web_scrapping_v2.py and v2/scraper.py: pronoun filter, demonym mapping, century years. */
  const PairScriptRules := EnglishRules(NotPronoun, MapDemonym, CenturyYears)

  /** The English branch of v3/trial.py adds the capital-letter test. */
  const TrialEnglishRules := EnglishRules(CapitalNotPronoun, MapDemonym, CenturyYears)

  /** Web_scrapping.py looks the country up through an undefined name. */
  const WebScrappingRules := EnglishRules(NotPronoun, UndefinedLookup, CenturyYears)

  /** full_project.py and the first pass of NationalityFunction.py keep countries verbatim. */
  const VerbatimRules := EnglishRules(NotPronoun, Verbatim, CenturyYears)

  /** finalMain.py and CounterCode.py accept any standalone four-digit number. */
  const FourDigitRules := EnglishRules(NotPronoun, MapDemonym, AnyFourDigits)

  /** A pronoun Person span is dropped under every English rule set. */
  lemma PronounDropped(st: Setting, s: Span)
    requires st.profile.EnglishRules? && s.kind == PersonLabel
    requires Lower(Strip(s.text)) in Pronouns
    ensures Classify(st, s) == Skip
  {
    // no pronoun is empty, so neither is the stripped text
    assert "" !in Pronouns;
    assert |Lower(Strip(s.text))| == |Strip(s.text)|;
  }

  /** Under the pronoun rule, any other Person span is kept with its stripped text. */
  lemma PersonKept(st: Setting, s: Span)
    requires st.profile.EnglishRules? && st.profile.person == NotPronoun
    requires s.kind == PersonLabel && Lower(Strip(s.text)) !in Pronouns
    ensures Classify(st, s) == Keep(People, Strip(s.text))
  {
  }

  /** v3/trial.py: an English Person needs a capital first letter, and an empty one raises. */
  lemma TrialPersonRule(st: Setting, s: Span)
    requires st.profile == TrialEnglishRules && s.kind == PersonLabel
    ensures Strip(s.text) == "" ==> Classify(st, s) == Raise(IndexError)
    ensures Strip(s.text) != "" ==>
              (Classify(st, s).Keep? <==> IsUpper(Strip(s.text)[0]) && Lower(Strip(s.text)) !in Pronouns)
  {
  }

  /** A Country span stores the lookup result when it is a non-empty string, else its text. */
  lemma CountryMapped(st: Setting, s: Span)
    requires st.profile.EnglishRules? && st.profile.country == MapDemonym && s.kind == CountryLabel
    ensures var text := Strip(s.text);
            var found := st.lookup(text);
            Classify(st, s) == Keep(Countries, if found.Some? && found.value != "" then found.value else text)
  {
  }

  /** full_project.py: the country text is kept as read, whatever the lookup says. */
  lemma CountryVerbatim(st: Setting, s: Span)
    requires st.profile == VerbatimRules && s.kind == CountryLabel
    ensures Classify(st, s) == Keep(Countries, Strip(s.text))
  {
  }

  /** Web_scrapping.py: the first Country span ends the call with `NameError`. */
  lemma CountryRaisesNameError(st: Setting, spans: seq<Span>, i: nat)
    requires st.profile == WebScrappingRules
    requires i < |spans| && spans[i].kind == CountryLabel
    requires forall j :: 0 <= j < i ==> spans[j].kind != CountryLabel
    ensures FirstRaise(Classifier(st), spans) == Some(NameError("filename"))
  {
    var f := Classifier(st);
    forall j | 0 <= j < i ensures !f(spans[..i][j]).Raise? {
      assert spans[..i][j] == spans[j];
      OnlyCountryRaises(st, spans[j]);
    }
    FirstRaiseMeans(f, spans[..i]);
    CountryRaises(st, spans[i]);
    RaiseAt(f, spans, i, NameError("filename"));
  }

  /** The first raising span decides the error. */
  lemma RaiseAt(f: Span -> Outcome, spans: seq<Span>, i: nat, err: Error)
    requires i < |spans| && FirstRaise(f, spans[..i]).None? && f(spans[i]) == Raise(err)
    ensures FirstRaise(f, spans) == Some(err)
  {
    var pre := spans[..i + 1];
    assert pre[..i] == spans[..i] && pre[i] == spans[i];
    FirstRaiseExtends(f, spans, i + 1);
  }

  lemma CountryRaises(st: Setting, s: Span)
    requires st.profile == WebScrappingRules && s.kind == CountryLabel
    ensures Classifier(st)(s) == Raise(NameError("filename"))
  {
    assert Classify(st, s) == Raise(NameError("filename"));
  }

  /** Under these rules no other label raises. */
  lemma OnlyCountryRaises(st: Setting, s: Span)
    requires st.profile == WebScrappingRules && s.kind != CountryLabel
    ensures !Classifier(st)(s).Raise?
  {
    assert !Classify(st, s).Raise?;
  }

  /** A Date span keeps only the year its rule finds first, or nothing. */
  lemma DateRule(st: Setting, s: Span)
    requires st.profile.EnglishRules? && s.kind == DateLabel
    ensures match FirstYear(Strip(s.text), st.profile.date)
            case None => Classify(st, s) == Skip
            case Some(y) => Classify(st, s) == Keep(Dates, y)
  {
  }

  /** finalMain.py keeps "0042" as a date; the century rule of the other scripts drops it. */
  lemma LeadingZeroDate(lookup: string -> Option<string>, isArabicCountry: string -> bool)
    ensures Classify(Setting(FourDigitRules, lookup, isArabicCountry), Span("0042", DateLabel)) == Keep(Dates, "0042")
    ensures Classify(Setting(PairScriptRules, lookup, isArabicCountry), Span("0042", DateLabel)) == Skip
  {
    ExampleLeadingZeros();
    assert Strip("0042") == "0042" by {
      assert !IsSpace('0');
      assert !IsSpace('2');
    }
  }

  /** Place and City texts are kept as read; any other label is ignored. */
  lemma PlacesAndOthers(st: Setting, s: Span)
    requires st.profile.EnglishRules?
    ensures s.kind == PlaceLabel ==> Classify(st, s) == Keep(Places, Strip(s.text))
    ensures s.kind == CityLabel ==> Classify(st, s) == Keep(Cities, Strip(s.text))
    ensures s.kind !in EnglishLabels ==> Classify(st, s) == Skip
  {
    var p := st.profile;
    assert Classify(st, s) == ClassifyEnglish(p.person, p.country, p.date, st.lookup, s.kind, Strip(s.text));
    if s.kind == PlaceLabel || s.kind == CityLabel {
      assert |PersonLabel| == 6 && |CountryLabel| == 7 && |PlaceLabel| == 5 && |CityLabel| == 4;
      assert DateLabel[0] != CityLabel[0];
    } else if s.kind !in EnglishLabels {
      assert s.kind != PersonLabel && s.kind != CountryLabel && s.kind != DateLabel;
    }
  }

  /** v3/trial.py in Arabic: name, state, place and city spans without an Arabic
      letter are dropped; date spans are not filtered. */
  lemma ArabicFilter(st: Setting, s: Span)
    requires st.profile == ArabicRules
    ensures ((s.kind == NameLabel || s.kind == StateLabel || s.kind == LocationLabel || s.kind == TownLabel)
             && !HasArabic(Strip(s.text))) ==> Classify(st, s) == Skip
    ensures s.kind == HistoryLabel ==>
              Classify(st, s) == match FirstYear(Strip(s.text), CenturyYears)
                                 case None => Skip
                                 case Some(y) => Keep(Dates, y)
    ensures s.kind == StateLabel && HasArabic(Strip(s.text)) ==> Classify(st, s) == Keep(Countries, Strip(s.text))
  {
    assert HistoryLabel != NameLabel && HistoryLabel != StateLabel && HistoryLabel != LocationLabel && HistoryLabel != TownLabel by {
      assert |HistoryLabel| == 5 && |NameLabel| == 3 && |StateLabel| == 4 && |LocationLabel| == 4 && |TownLabel| == 5;
      assert HistoryLabel[0] != TownLabel[0];
    }
    assert StateLabel != NameLabel by {
      assert |StateLabel| != |NameLabel|;
    }
  }

  /** An Arabic city that `is_arabic_country` recognises is dropped. */
  lemma ArabicCountryCity(st: Setting, s: Span)
    requires st.profile == ArabicRules && s.kind == TownLabel && HasArabic(Strip(s.text))
    ensures Classify(st, s) == if st.isArabicCountry(Strip(s.text)) then Skip else Keep(Cities, Strip(s.text))
  {
    assert TownLabel != NameLabel && TownLabel != StateLabel && TownLabel != HistoryLabel && TownLabel != LocationLabel by {
      assert |TownLabel| == 5 && |NameLabel| == 3 && |StateLabel| == 4 && |LocationLabel| == 4;
      assert TownLabel[0] != HistoryLabel[0];
    }
  }

  // ---------------------------------------------------- choosing a language

  /** The language of v3/trial.py: its rules and its threshold in hundredths. */
  datatype Language = Language(rules: Profile, thresholdPercent: nat)

  /** `/en/` is looked for first, then `/ar/`, in the lower-cased URL. */
  function SelectLanguage(url: string): (r: Result<Language>)
    ensures r.Success? ==> r.value.rules == TrialEnglishRules || r.value.rules == ArabicRules
    ensures r.Failure? ==> r.error == LanguageNotRecognized
  {
    var u := Lower(url);
    if Contains(u, "/en/") then Success(Language(TrialEnglishRules, 50))
    else if Contains(u, "/ar/") then Success(Language(ArabicRules, 60))
    else Failure(LanguageNotRecognized)
  }

  /** The choice by cases: English wins when both markers appear. */
  lemma SelectLanguageCases(url: string)
    ensures Contains(Lower(url), "/en/") ==> SelectLanguage(url) == Success(Language(TrialEnglishRules, 50))
    ensures !Contains(Lower(url), "/en/") && Contains(Lower(url), "/ar/") ==>
              SelectLanguage(url) == Success(Language(ArabicRules, 60))
    ensures SelectLanguage(url).Failure? <==> !Contains(Lower(url), "/en/") && !Contains(Lower(url), "/ar/")
  {
  }

  /** The markers are matched without regard to letter case. */
  lemma SelectLanguageIgnoresCase(u1: string, u2: string)
    requires Lower(u1) == Lower(u2)
    ensures SelectLanguage(u1) == SelectLanguage(u2)
  {
  }

  // ---------------------------------------------------------- one page

  /** Every pair a page keeps, over the five sets. */
  function KeptPairs(st: Setting, spans: seq<Span>): set<Entry> {
    KeptBy(Classifier(st), spans)
  }

  function KeptBy(f: Span -> Outcome, spans: seq<Span>): set<Entry> {
    Bucket(f, spans, People) + Bucket(f, spans, Countries) + Bucket(f, spans, Dates)
    + Bucket(f, spans, Places) + Bucket(f, spans, Cities)
  }

  /** A pair is kept exactly when some span was classified into it. */
  lemma KeptPairsMembers(st: Setting, spans: seq<Span>, e: Entry)
    ensures e in KeptPairs(st, spans) <==>
            exists i, c :: 0 <= i < |spans| && Classify(st, spans[i]) == Keep(c, e.text) && spans[i].kind == e.kind
  {
    KeptByMembers(Classifier(st), spans, e);
  }

  lemma KeptByMembers(f: Span -> Outcome, spans: seq<Span>, e: Entry)
    ensures e in KeptBy(f, spans) <==>
            exists i, c :: 0 <= i < |spans| && f(spans[i]) == Keep(c, e.text) && spans[i].kind == e.kind
  {
    forall c | e in Bucket(f, spans, c)
      ensures exists i, c' :: 0 <= i < |spans| && f(spans[i]) == Keep(c', e.text) && spans[i].kind == e.kind
    {
      BucketMembers(f, spans, c, e);
      var i :| 0 <= i < |spans| && f(spans[i]) == Keep(c, e.text) && spans[i].kind == e.kind;
    }
    if exists i, c :: 0 <= i < |spans| && f(spans[i]) == Keep(c, e.text) && spans[i].kind == e.kind {
      var i, c :| 0 <= i < |spans| && f(spans[i]) == Keep(c, e.text) && spans[i].kind == e.kind;
      BucketMembers(f, spans, c, e);
      assert e in Bucket(f, spans, c);
    }
  }

  /** The extracted lists hold together exactly the kept pairs. */
  lemma AllEntriesKept(st: Setting, spans: seq<Span>, es: Entities)
    requires forall c :: Elems(es.Get(c)) == Bucket(Classifier(st), spans, c)
    ensures AllEntries(es) == KeptPairs(st, spans)
  {
    assert es.people == es.Get(People) && es.countries == es.Get(Countries) && es.dates == es.Get(Dates);
    assert es.places == es.Get(Places) && es.cities == es.Get(Cities);
  }

  /** The rows written for the kept pairs: one per pair, each with the link
      and the summed count of its text, in `(entity, label)` order. */
  predicate PairRows(url: string, chunks: seq<string>, kept: set<Entry>, rows: seq<LabelledRow>) {
    && |rows| == |kept|
    && (forall i :: 0 <= i < |rows| ==> rows[i].link == url)
    && (forall i :: 0 <= i < |rows| ==>
          KeyOf(rows[i]) in kept && rows[i].occurrences == TotalCount(chunks, rows[i].entity))
    && (forall e :: e in kept ==> exists i :: 0 <= i < |rows| && KeyOf(rows[i]) == e)
    && (forall i, j :: 0 <= i < j < |rows| ==> PairBefore(KeyOf(rows[i]), KeyOf(rows[j])))
  }

  /**
   * One page of Web_scrapping_v2.py, v2/scraper.py or v3/trial.py: extract,
   * count each kept pair over the page's chunks, and write the rows in pair
   * order, each starting with the link.
   */
  method ProcessPairPage(url: string, chunks: seq<string>, st: Setting, spans: seq<Span>)
    returns (r: Result<seq<LabelledRow>>)
    ensures r.Failure? <==> FirstRaise(Classifier(st), spans).Some?
    ensures r.Failure? ==> r.error == FirstRaise(Classifier(st), spans).value
    ensures r.Success? ==> PairRows(url, chunks, KeptPairs(st, spans), r.value)
  {
    var extracted := ExtractEntities(st, spans);
    if extracted.Failure? {
      return Failure(extracted.error);
    }
    AllEntriesKept(st, spans, extracted.value);
    var counts := CountEntities(AllEntries(extracted.value), EntryText, chunks);
    var rows := LabelledRows(url, counts);
    r := Success(rows);
  }

  /** One page of v3/trial.py: the language from the URL, then the pair page. */
  method ProcessTrialPage(url: string, chunks: seq<string>, spans: seq<Span>,
                          lookup: string -> Option<string>, isArabicCountry: string -> bool)
    returns (r: Result<seq<LabelledRow>>)
    ensures SelectLanguage(url).Failure? ==> r == Failure(LanguageNotRecognized)
    ensures SelectLanguage(url).Success? ==>
              var st := Setting(SelectLanguage(url).value.rules, lookup, isArabicCountry);
              && (r.Failure? <==> FirstRaise(Classifier(st), spans).Some?)
              && (r.Failure? ==> r.error == FirstRaise(Classifier(st), spans).value)
              && (r.Success? ==> PairRows(url, chunks, KeptPairs(st, spans), r.value))
  {
    var language := SelectLanguage(url);
    if language.Failure? {
      return Failure(language.error);
    }
    r := ProcessPairPage(url, chunks, Setting(language.value.rules, lookup, isArabicCountry), spans);
  }

  /** Every text a page keeps, in the scripts that store bare texts. */
  function KeptTexts(st: Setting, spans: seq<Span>): set<string> {
    TextSet(KeptPairs(st, spans))
  }

  /**
   * One page of Web_scrapping.py or finalMain.py: extract, count each kept
   * text over the chunks, and write the rows in text order with the link
   * on the first row only.
   */
  method ProcessTextPage(url: string, chunks: seq<string>, st: Setting, spans: seq<Span>)
    returns (r: Result<seq<PlainRow>>)
    ensures r.Failure? <==> FirstRaise(Classifier(st), spans).Some?
    ensures r.Failure? ==> r.error == FirstRaise(Classifier(st), spans).value
    ensures r.Success? ==>
              var rows := r.value;
              && |rows| == |KeptTexts(st, spans)|
              && (|rows| > 0 ==> rows[0].link == url)
              && (forall i :: 0 < i < |rows| ==> rows[i].link == "")
              && (forall i :: 0 <= i < |rows| ==>
                    rows[i].entity in KeptTexts(st, spans) && rows[i].occurrences == TotalCount(chunks, rows[i].entity))
              && (forall t :: t in KeptTexts(st, spans) ==> exists i :: 0 <= i < |rows| && rows[i].entity == t)
              && (forall i, j :: 0 <= i < j < |rows| ==> Less(rows[i].entity, rows[j].entity))
  {
    var extracted := ExtractEntities(st, spans);
    if extracted.Failure? {
      return Failure(extracted.error);
    }
    AllEntriesKept(st, spans, extracted.value);
    var counts := CountEntities(AllTexts(extracted.value), (t: string) => t, chunks);
    var rows := PlainRows(url, counts);
    r := Success(rows);
  }

  /** Keying by text gives no more rows than keying by pair. */
  lemma TextRowsFewer(st: Setting, spans: seq<Span>)
    ensures |KeptTexts(st, spans)| <= |KeptPairs(st, spans)|
  {
    TextKeysFewer(KeptPairs(st, spans));
  }
}
