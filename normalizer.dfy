/**
 * `extract_entities` and its inline copies: every NER span is stripped,
 * classified by its label under the rules of one script, and added to one
 * of five sets; each set is then sorted, dates by their integer value and
 * the others by text.
 */
module Normalizer {
  import opened Text
  import opened Outcomes
  import opened Sorting
  import opened Years

  /** `pronoun_list`, compared with the lower-cased text. */
  const Pronouns: set<string> := {"he", "she", "him", "her", "it", "they", "them", "we", "us", "i",
                                  "me", "you", "his", "their", "our"}

  /** The five sets, in the order the scripts return them. */
  datatype Category = People | Countries | Dates | Places | Cities

  const PersonLabel := "Person"
  const CountryLabel := "Country"
  const DateLabel := "Date"
  const PlaceLabel := "Place"
  const CityLabel := "City"

  /** `labels`, passed to the NER model for English pages. */
  const EnglishLabels: seq<string> := [PersonLabel, CountryLabel, DateLabel, PlaceLabel, CityLabel]

  /** The Arabic labels of v3/trial.py: name, state, date, place and city. */
  const NameLabel := "\U{0627}\U{0633}\U{0645}"
  const StateLabel := "\U{062F}\U{0648}\U{0644}\U{0629}"
  const HistoryLabel := "\U{062A}\U{0627}\U{0631}\U{064A}\U{062E}"
  const LocationLabel := "\U{0645}\U{0643}\U{0627}\U{0646}"
  const TownLabel := "\U{0645}\U{062F}\U{064A}\U{0646}\U{0629}"

  /** `labels2` */
  const ArabicLabels: seq<string> := [NameLabel, StateLabel, HistoryLabel, LocationLabel, TownLabel]

  /** Which Person spans are kept. */
  datatype PersonRule =
    /** `text.lower() not in pronoun_list` */
    | NotPronoun
    /** `text[0].isupper() and text.lower() not in pronoun_list`, which raises on empty text */
    | CapitalNotPronoun

  /** What a Country span contributes. */
  datatype CountryRule =
    /** `is_it_a_nationality(filename, text) or text` */
    | MapDemonym
    /** the text itself */
    | Verbatim
    /** the lookup names a variable the script never defines, raising `NameError` */
    | UndefinedLookup

  /** The rules of one script. */
  datatype Profile =
    | EnglishRules(person: PersonRule, country: CountryRule, date: DateRule)
    /** the Arabic branch of v3/trial.py */
    | ArabicRules

  /** The labels a profile passes to the NER model. */
  function Labels(p: Profile): seq<string> {
    if p.ArabicRules? then ArabicLabels else EnglishLabels
  }

  /** The label of the spans that feed a category. */
  function LabelOf(p: Profile, c: Category): string {
    if p.ArabicRules? then
      match c
      case People => NameLabel
      case Countries => StateLabel
      case Dates => HistoryLabel
      case Places => LocationLabel
      case Cities => TownLabel
    else
      match c
      case People => PersonLabel
      case Countries => CountryLabel
      case Dates => DateLabel
      case Places => PlaceLabel
      case Cities => CityLabel
  }

  /** One span of `predict_entities`: `entity["text"]` and `entity["label"]`. */
  datatype Span = Span(text: string, kind: string)

  /** A kept entity: the `(text, label)` pair the pair-keyed scripts store. */
  datatype Entry = Entry(text: string, kind: string)

  /** What one span does to the five sets. */
  datatype Outcome = Keep(category: Category, text: string) | Skip | Raise(error: Error)

  /** `found or text`: a lookup result counts only when it is a non-empty string. */
  function OrElse(found: Option<string>, text: string): (r: string)
    ensures r == text || (found.Some? && r == found.value && r != "")
    ensures found.Some? && found.value != "" ==> r == found.value
  {
    if found.Some? && found.value != "" then found.value else text
  }

  /** `re.compile(r'[؀-ۿ]').search(text)` */
  predicate HasArabic(s: string) {
    exists k :: 0 <= k < |s| && '\U{0600}' <= s[k] <= '\U{06FF}'
  }

  /** A profile together with the two helpers the scripts import:
      `is_it_a_nationality` and `is_arabic_country`. */
  datatype Setting = Setting(profile: Profile, lookup: string -> Option<string>, isArabicCountry: string -> bool)

  /** The `if`/`elif` chain of the English branch, on the stripped text. */
  function ClassifyEnglish(person: PersonRule, country: CountryRule, date: DateRule,
                           lookup: string -> Option<string>, kind: string, text: string): (o: Outcome)
    ensures o.Keep? ==> kind == LabelOf(EnglishRules(person, country, date), o.category)
    ensures o.Keep? && o.category == Dates ==> |o.text| == 4 && AllDigits(o.text)
    // the only errors: `text[0]` on an empty Person text, and the undefined lookup
    ensures o.Raise? <==> (kind == PersonLabel && person == CapitalNotPronoun && |text| == 0)
                          || (kind == CountryLabel && country == UndefinedLookup)
  {
    if kind == PersonLabel then
      match person
      case NotPronoun => if Lower(text) !in Pronouns then Keep(People, text) else Skip
      case CapitalNotPronoun =>
        if |text| == 0 then Raise(IndexError)
        else if IsUpper(text[0]) && Lower(text) !in Pronouns then Keep(People, text)
        else Skip
    else if kind == CountryLabel then
      match country
      case MapDemonym => Keep(Countries, OrElse(lookup(text), text))
      case Verbatim => Keep(Countries, text)
      case UndefinedLookup => Raise(NameError("filename"))
    else if kind == DateLabel then
      match FirstYear(text, date)
      case None => Skip
      case Some(year) => FirstYearShape(text, date); Keep(Dates, year)
    else if kind == PlaceLabel then Keep(Places, text)
    else if kind == CityLabel then Keep(Cities, text)
    else Skip
  }

  /** The Arabic branch: name, state, place and city spans need an Arabic letter. */
  function ClassifyArabic(isArabicCountry: string -> bool, kind: string, text: string): (o: Outcome)
    ensures o.Keep? ==> kind == LabelOf(ArabicRules, o.category)
    ensures o.Keep? && o.category == Dates ==> |o.text| == 4 && AllDigits(o.text)
    ensures !o.Raise?
  {
    if (kind == NameLabel || kind == StateLabel || kind == LocationLabel || kind == TownLabel)
       && !HasArabic(text) then Skip
    else if kind == NameLabel then Keep(People, text)
    else if kind == StateLabel then Keep(Countries, text)
    else if kind == HistoryLabel then
      match FirstYear(text, CenturyYears)
      case None => Skip
      case Some(year) => FirstYearShape(text, CenturyYears); Keep(Dates, year)
    else if kind == LocationLabel then Keep(Places, text)
    else if kind == TownLabel then
      if isArabicCountry(text) then Skip else Keep(Cities, text)
    else Skip
  }

  /** What one span contributes: only its category's label keeps it, and a
      kept date is a four-digit year. */
  function Classify(st: Setting, s: Span): (o: Outcome)
    ensures o.Keep? ==> s.kind == LabelOf(st.profile, o.category)
    ensures o.Keep? && o.category == Dates ==> |o.text| == 4 && AllDigits(o.text)
  {
    match st.profile
    case EnglishRules(person, country, date) => ClassifyEnglish(person, country, date, st.lookup, s.kind, Strip(s.text))
    case ArabicRules => ClassifyArabic(st.isArabicCountry, s.kind, Strip(s.text))
  }

  // ------------------------------------------------------------- the sets

  /** The rules of a setting as a function on spans. */
  function Classifier(st: Setting): Span -> Outcome {
    s => Classify(st, s)
  }

  /** The set a category holds after the spans, each classified by `f`. */
  function Bucket(f: Span -> Outcome, spans: seq<Span>, c: Category): set<Entry> {
    if spans == [] then {}
    else
      var prev := Bucket(f, spans[..|spans| - 1], c);
      var s := spans[|spans| - 1];
      var o := f(s);
      if o.Keep? && o.category == c then prev + {Entry(o.text, s.kind)} else prev
  }

  /** The error of the first span that raises, if any. */
  function FirstRaise(f: Span -> Outcome, spans: seq<Span>): Option<Error> {
    if spans == [] then None
    else
      var prev := FirstRaise(f, spans[..|spans| - 1]);
      var o := f(spans[|spans| - 1]);
      if prev.Some? then prev else if o.Raise? then Some(o.error) else None
  }

  /** An entry is in a set exactly when some span was kept there with its text and label. */
  lemma {:induction false} BucketMembers(f: Span -> Outcome, spans: seq<Span>, c: Category, e: Entry)
    ensures e in Bucket(f, spans, c) <==>
            exists i :: 0 <= i < |spans| && f(spans[i]) == Keep(c, e.text) && spans[i].kind == e.kind
  {
    if spans != [] {
      var n := |spans| - 1;
      var pre := spans[..n];
      BucketMembers(f, pre, c, e);
      if exists i :: 0 <= i < n && f(pre[i]) == Keep(c, e.text) && pre[i].kind == e.kind {
        var i :| 0 <= i < n && f(pre[i]) == Keep(c, e.text) && pre[i].kind == e.kind;
        assert spans[i] == pre[i];
      }
      if exists i :: 0 <= i < |spans| && f(spans[i]) == Keep(c, e.text) && spans[i].kind == e.kind {
        var i :| 0 <= i < |spans| && f(spans[i]) == Keep(c, e.text) && spans[i].kind == e.kind;
        if i < n {
          assert pre[i] == spans[i];
        }
      }
    }
  }

  /** Every entry of a set carries its category's label, and a kept date is a year. */
  lemma {:induction false} BucketShape(st: Setting, spans: seq<Span>, c: Category)
    ensures forall e :: e in Bucket(Classifier(st), spans, c) ==> e.kind == LabelOf(st.profile, c)
    ensures c == Dates ==> forall e :: e in Bucket(Classifier(st), spans, c) ==> |e.text| == 4 && AllDigits(e.text)
  {
    if spans != [] {
      BucketShape(st, spans[..|spans| - 1], c);
    }
  }

  /** A raise found in a prefix is the raise of the whole sequence. */
  lemma {:induction false} FirstRaiseExtends(f: Span -> Outcome, spans: seq<Span>, n: nat)
    requires n <= |spans| && FirstRaise(f, spans[..n]).Some?
    ensures FirstRaise(f, spans) == FirstRaise(f, spans[..n])
    decreases |spans| - n
  {
    if n < |spans| {
      assert spans[..n + 1][..n] == spans[..n];
      FirstRaiseExtends(f, spans, n + 1);
    } else {
      assert spans[..n] == spans;
    }
  }

  /** The loop stops with the error of the leftmost raising span. */
  lemma {:induction false} FirstRaiseMeans(f: Span -> Outcome, spans: seq<Span>)
    ensures FirstRaise(f, spans).None? <==> forall i :: 0 <= i < |spans| ==> !f(spans[i]).Raise?
    ensures FirstRaise(f, spans).Some? ==>
              exists i :: 0 <= i < |spans| && f(spans[i]) == Raise(FirstRaise(f, spans).value)
                          && forall j :: 0 <= j < i ==> !f(spans[j]).Raise?
  {
    if spans != [] {
      var n := |spans| - 1;
      var pre := spans[..n];
      FirstRaiseMeans(f, pre);
      assert forall j :: 0 <= j < n ==> pre[j] == spans[j];
    }
  }

  // ------------------------------------------------------------ ordering

  /** `key=lambda x: x[0]` (or plain `sorted` on texts). */
  predicate TextBefore(a: Entry, b: Entry) {
    Less(a.text, b.text)
  }

  /** `int(y)` of a year; every kept date is a digit string. */
  function YearKey(y: string): int {
    if AllDigits(y) then Value(y) else -1
  }

  /** `key=lambda x: int(x[0])` (or `key=int` on texts). */
  predicate YearBefore(a: Entry, b: Entry) {
    YearKey(a.text) < YearKey(b.text)
  }

  function Before(c: Category): (Entry, Entry) -> bool {
    if c == Dates then YearBefore else TextBefore
  }

  /** Within a set the sort key never ties, so `sorted` has one answer. */
  lemma BucketOrdered(st: Setting, spans: seq<Span>, c: Category)
    ensures StrictTotalOn(Bucket(Classifier(st), spans, c), Before(c))
  {
    var s := Bucket(Classifier(st), spans, c);
    BucketShape(st, spans, c);
    if c == Dates {
      forall a, b | a in s && b in s && a != b ensures YearBefore(a, b) || YearBefore(b, a) {
        if Value(a.text) == Value(b.text) {
          ValueInjective(a.text, b.text);
        }
      }
    } else {
      forall a | a in s ensures !TextBefore(a, a) {
        LessIrreflexive(a.text);
      }
      forall a, b, d | a in s && b in s && d in s && TextBefore(a, b) && TextBefore(b, d)
        ensures TextBefore(a, d)
      {
        LessTransitive(a.text, b.text, d.text);
      }
      forall a, b | a in s && b in s && a != b ensures TextBefore(a, b) || TextBefore(b, a) {
        LessTotal(a.text, b.text);
      }
    }
  }

  // ------------------------------------------------------------ the result

  /** The five sorted lists `extract_entities` returns. */
  datatype Entities = Entities(people: seq<Entry>, countries: seq<Entry>, dates: seq<Entry>,
                               places: seq<Entry>, cities: seq<Entry>)
  {
    function Get(c: Category): seq<Entry> {
      match c
      case People => people
      case Countries => countries
      case Dates => dates
      case Places => places
      case Cities => cities
    }
  }

  /** `sorted(s, key=...)` for one category. */
  method SortBucket(st: Setting, spans: seq<Span>, c: Category, bucket: set<Entry>) returns (r: seq<Entry>)
    requires bucket == Bucket(Classifier(st), spans, c)
    ensures Elems(r) == bucket && NoDup(r) && Ascending(r, Before(c))
  {
    BucketOrdered(st, spans, c);
    r := SortSet(bucket, Before(c));
  }

  /**
   * The classifying loop: each span, classified by `f`, is added to its
   * set; a raising span ends the loop with its error.
   */
  method Collect(f: Span -> Outcome, spans: seq<Span>)
    returns (raised: Option<Error>, people: set<Entry>, countries: set<Entry>, dates: set<Entry>,
             places: set<Entry>, cities: set<Entry>)
    ensures raised == FirstRaise(f, spans)
    ensures raised.None? ==>
              && people == Bucket(f, spans, People) && countries == Bucket(f, spans, Countries)
              && dates == Bucket(f, spans, Dates) && places == Bucket(f, spans, Places)
              && cities == Bucket(f, spans, Cities)
  {
    people, countries, dates, places, cities := {}, {}, {}, {}, {};
    for i := 0 to |spans|
      invariant FirstRaise(f, spans[..i]).None?
      invariant people == Bucket(f, spans[..i], People)
      invariant countries == Bucket(f, spans[..i], Countries)
      invariant dates == Bucket(f, spans[..i], Dates)
      invariant places == Bucket(f, spans[..i], Places)
      invariant cities == Bucket(f, spans[..i], Cities)
    {
      assert spans[..i + 1][..i] == spans[..i];
      match f(spans[i])
      case Raise(e) =>
        FirstRaiseExtends(f, spans, i + 1);
        return Some(e), people, countries, dates, places, cities;
      case Skip =>
      case Keep(c, text) =>
        var e := Entry(text, spans[i].kind);
        match c
        case People => people := people + {e};
        case Countries => countries := countries + {e};
        case Dates => dates := dates + {e};
        case Places => places := places + {e};
        case Cities => cities := cities + {e};
    }
    assert spans[..|spans|] == spans;
    raised := None;
  }

  /**
   * `extract_entities` on the spans of one page: the classifying loop and
   * the five sorts. A raising span ends the call with its error; otherwise
   * each list holds its set once per entry, in key order.
   */
  method ExtractEntities(st: Setting, spans: seq<Span>) returns (r: Result<Entities>)
    ensures r.Failure? <==> FirstRaise(Classifier(st), spans).Some?
    ensures r.Failure? ==> r.error == FirstRaise(Classifier(st), spans).value
    ensures r.Success? ==>
              forall c :: Elems(r.value.Get(c)) == Bucket(Classifier(st), spans, c)
                          && NoDup(r.value.Get(c)) && Ascending(r.value.Get(c), Before(c))
  {
    var raised, people, countries, dates, places, cities := Collect(Classifier(st), spans);
    if raised.Some? {
      return Failure(raised.value);
    }
    var sortedPeople := SortBucket(st, spans, People, people);
    var sortedCountries := SortBucket(st, spans, Countries, countries);
    var sortedDates := SortBucket(st, spans, Dates, dates);
    var sortedPlaces := SortBucket(st, spans, Places, places);
    var sortedCities := SortBucket(st, spans, Cities, cities);
    var es := Entities(sortedPeople, sortedCountries, sortedDates, sortedPlaces, sortedCities);
    forall c ensures Elems(es.Get(c)) == Bucket(Classifier(st), spans, c)
                     && NoDup(es.Get(c)) && Ascending(es.Get(c), Before(c)) {
      match c
      case People =>
      case Countries =>
      case Dates =>
      case Places =>
      case Cities =>
    }
    r := Success(es);
  }

  // ---------------------------------------------------- text-keyed scripts

  /** The scripts that store bare texts hold the texts of the entries. */
  function Texts(es: seq<Entry>): (ts: seq<string>)
    ensures |ts| == |es| && forall i :: 0 <= i < |es| ==> ts[i] == es[i].text
  {
    seq(|es|, i requires 0 <= i < |es| => es[i].text)
  }

  function TextSet(es: set<Entry>): set<string> {
    set e | e in es :: e.text
  }

  /** A sorted list of one category, read as texts, is that category's text
      set, sorted and without repeats: one kind per category means one
      entry per text. */
  lemma SortedTexts(st: Setting, spans: seq<Span>, c: Category, es: seq<Entry>)
    requires Elems(es) == Bucket(Classifier(st), spans, c) && NoDup(es) && Ascending(es, Before(c))
    ensures Elems(Texts(es)) == TextSet(Bucket(Classifier(st), spans, c))
    ensures NoDup(Texts(es))
    ensures c != Dates ==> forall i, j :: 0 <= i < j < |es| ==> Less(Texts(es)[i], Texts(es)[j])
  {
    BucketShape(st, spans, c);
    var ts := Texts(es);
    forall i, j | 0 <= i < j < |ts| ensures ts[i] != ts[j] {
      assert es[i] in Elems(es) && es[j] in Elems(es);
      assert es[i] != es[j];
    }
    forall t | t in TextSet(Bucket(Classifier(st), spans, c)) ensures t in Elems(ts) {
      var e :| e in Bucket(Classifier(st), spans, c) && e.text == t;
      var i :| 0 <= i < |es| && es[i] == e;
      assert ts[i] == t;
    }
  }

  // ----------------------------------------------- NationalityFunction.py

  /** The image of the raw country texts under `lookup(c) or c`. */
  function Resolved(countries: set<string>, lookup: string -> Option<string>): set<string> {
    set c | c in countries :: OrElse(lookup(c), c)
  }

  /** The loop that builds `valid_countries` from the raw country texts. */
  method ResolveCountries(countries: set<string>, lookup: string -> Option<string>) returns (valid: set<string>)
    ensures forall x :: x in valid <==> exists c :: c in countries && x == OrElse(lookup(c), c)
    ensures |valid| <= |countries|
  {
    valid := {};
    var rest := countries;
    while rest != {}
      invariant rest <= countries
      invariant valid == Resolved(countries - rest, lookup)
      decreases rest
    {
      var c :| c in rest;
      assert Resolved(countries - (rest - {c}), lookup) == Resolved(countries - rest, lookup) + {OrElse(lookup(c), c)};
      valid := valid + {OrElse(lookup(c), c)};
      rest := rest - {c};
    }
    assert countries - rest == countries;
    ResolvedSize(countries, lookup);
  }

  /** Two demonyms of one country collapse, so mapping never adds entries. */
  lemma {:induction false} ResolvedSize(countries: set<string>, lookup: string -> Option<string>)
    ensures |Resolved(countries, lookup)| <= |countries|
    decreases countries
  {
    if countries != {} {
      var c :| c in countries;
      var rest := countries - {c};
      ResolvedSize(rest, lookup);
      assert Resolved(countries, lookup) == Resolved(rest, lookup) + {OrElse(lookup(c), c)};
    }
  }

  /** `g` keeps a Country span exactly when `f` does, with the looked-up text. */
  ghost predicate MapsCountries(f: Span -> Outcome, g: Span -> Outcome, lookup: string -> Option<string>) {
    forall s ::
      && ((f(s).Keep? && f(s).category == Countries) <==> (g(s).Keep? && g(s).category == Countries))
      && (f(s).Keep? && f(s).category == Countries ==> g(s).text == OrElse(lookup(f(s).text), f(s).text))
  }

  lemma {:induction false} MappedBucket(f: Span -> Outcome, g: Span -> Outcome, lookup: string -> Option<string>,
                                        spans: seq<Span>)
    requires MapsCountries(f, g, lookup)
    ensures Resolved(TextSet(Bucket(f, spans, Countries)), lookup) == TextSet(Bucket(g, spans, Countries))
  {
    if spans != [] {
      var n := |spans| - 1;
      var s := spans[n];
      MappedBucket(f, g, lookup, spans[..n]);
      if f(s).Keep? && f(s).category == Countries {
        var t := f(s).text;
        var r0 := Bucket(f, spans[..n], Countries);
        var m0 := Bucket(g, spans[..n], Countries);
        assert TextSet(r0 + {Entry(t, s.kind)}) == TextSet(r0) + {t};
        assert TextSet(m0 + {Entry(g(s).text, s.kind)}) == TextSet(m0) + {g(s).text};
        assert Resolved(TextSet(r0) + {t}, lookup) == Resolved(TextSet(r0), lookup) + {OrElse(lookup(t), t)};
      }
    }
  }

  /**
   * Mapping the de-duplicated raw countries afterwards yields the same set
   * as mapping each Country span as it is read.
   */
  lemma ResolveAfterEqualsInline(person: PersonRule, date: DateRule, lookup: string -> Option<string>,
                                 isArabicCountry: string -> bool, spans: seq<Span>)
    ensures Resolved(TextSet(Bucket(Classifier(Setting(EnglishRules(person, Verbatim, date), lookup, isArabicCountry)), spans, Countries)), lookup)
            == TextSet(Bucket(Classifier(Setting(EnglishRules(person, MapDemonym, date), lookup, isArabicCountry)), spans, Countries))
  {
    var f := Classifier(Setting(EnglishRules(person, Verbatim, date), lookup, isArabicCountry));
    var g := Classifier(Setting(EnglishRules(person, MapDemonym, date), lookup, isArabicCountry));
    forall s ensures
      && ((f(s).Keep? && f(s).category == Countries) <==> (g(s).Keep? && g(s).category == Countries))
      && (f(s).Keep? && f(s).category == Countries ==> g(s).text == OrElse(lookup(f(s).text), f(s).text))
    {
    }
    MappedBucket(f, g, lookup, spans);
  }
}
