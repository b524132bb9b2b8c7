/**
 * Occurrence counting and the rows written for one page: every kept
 * entity is counted as `sum(chunk.count(entity) for chunk in chunks)`,
 * and the counts are written in key order, either one row per
 * `(entity, label)` pair or one row per entity text with the link on the
 * first row only.
 */
module Counter {
  import opened Text
  import opened Sorting
  import opened Normalizer

  // ------------------------------------------------------------ str.count

  /** `count` finds something exactly when `in` does. */
  lemma {:induction false} CountPositive(s: string, sub: string)
    ensures Count(s, sub) > 0 <==> Contains(s, sub)
    decreases |s|
  {
    if sub == [] {
      assert sub <= s[0..];
    } else if |s| < |sub| {
      forall i | 0 <= i <= |s| ensures !(sub <= s[i..]) {
      }
    } else if sub <= s {
      assert sub <= s[0..];
    } else {
      CountPositive(s[1..], sub);
      if Contains(s, sub) {
        var i :| 0 <= i <= |s| && sub <= s[i..];
        assert i != 0;
        assert s[1..][i - 1..] == s[i..];
      }
      if Contains(s[1..], sub) {
        var i :| 0 <= i <= |s[1..]| && sub <= s[1..][i..];
        assert s[1..][i..] == s[i + 1..];
      }
    }
  }

  /** Occurrences do not overlap: together they fit in the text. */
  lemma {:induction false} CountFits(s: string, sub: string)
    requires sub != []
    ensures Count(s, sub) * |sub| <= |s|
    decreases |s|
  {
    if |s| >= |sub| {
      if sub <= s {
        var rest := Count(s[|sub|..], sub);
        CountFits(s[|sub|..], sub);
        assert Count(s, sub) == rest + 1;
        MulSucc(rest, |sub|);
      } else {
        CountFits(s[1..], sub);
        assert Count(s, sub) == Count(s[1..], sub);
      }
    } else {
      assert Count(s, sub) == 0;
    }
  }

  lemma MulSucc(x: int, m: int)
    ensures (x + 1) * m == x * m + m
  {
  }

  /** Overlapping occurrences are not counted twice. */
  lemma ExampleNonOverlapping()
    ensures Count("aaaa", "aa") == 2
  {
    var s := "aaaa";
    assert "aa" <= s;
    assert s[2..] == "aa" && "aa" <= s[2..];
    assert s[2..][2..] == "";
  }

  /** A substring inside a longer word counts: "Art" is found in "Artist". */
  lemma ExampleInsideWord()
    ensures Count("Artist", "Art") == 1
  {
    var s := "Artist";
    assert s[0..3] == "Art";
    NoStart(s, "Art", 3, |s|);
    CountAt(s, "Art", 0);
  }

  /** `sum(chunk.count(entity) for chunk in chunks)` */
  function TotalCount(chunks: seq<string>, entity: string): nat {
    if chunks == [] then 0
    else TotalCount(chunks[..|chunks| - 1], entity) + Count(chunks[|chunks| - 1], entity)
  }

  /** The total is positive exactly when some chunk holds the entity. */
  lemma {:induction false} TotalCountPositive(chunks: seq<string>, entity: string)
    ensures TotalCount(chunks, entity) > 0 <==> exists i :: 0 <= i < |chunks| && Contains(chunks[i], entity)
  {
    if chunks != [] {
      var n := |chunks| - 1;
      TotalCountPositive(chunks[..n], entity);
      CountPositive(chunks[n], entity);
      assert forall i :: 0 <= i < n ==> chunks[..n][i] == chunks[i];
    }
  }

  /** Counts of the chunks of two parts of the content add up. */
  lemma {:induction false} TotalCountAppend(a: seq<string>, b: seq<string>, entity: string)
    ensures TotalCount(a + b, entity) == TotalCount(a, entity) + TotalCount(b, entity)
    decreases |b|
  {
    if b == [] {
      assert a + b == a;
    } else {
      var n := |b| - 1;
      assert (a + b)[..|a + b| - 1] == a + b[..n];
      TotalCountAppend(a, b[..n], entity);
    }
  }

  const FirstChunk := "Gemayel moved to Paris in 1930."
  const SecondChunk := "Gemayel stayed in Paris."

  /** Two chunks naming the same place once each count it twice. */
  lemma ExampleTwoChunks()
    ensures TotalCount([FirstChunk, SecondChunk], "Paris") == 2
  {
    FirstChunkOnce();
    SecondChunkOnce();
    TwoChunks(FirstChunk, SecondChunk, "Paris");
  }

  lemma TwoChunks(c1: string, c2: string, entity: string)
    ensures TotalCount([c1, c2], entity) == Count(c1, entity) + Count(c2, entity)
  {
    var cs := [c1, c2];
    assert cs[..1] == [c1] && [c1][..0] == [];
    assert TotalCount([c1], entity) == Count(c1, entity);
    assert TotalCount(cs, entity) == TotalCount(cs[..1], entity) + Count(cs[1], entity);
  }

  lemma FirstChunkOnce()
    ensures Count(FirstChunk, "Paris") == 1
  {
    var s := FirstChunk;
    assert s[17..22] == "Paris";
    assert forall i :: 0 <= i < |s| && i != 17 ==> s[i] != 'P';
    ParisOnce(s, 17);
  }

  lemma SecondChunkOnce()
    ensures Count(SecondChunk, "Paris") == 1
  {
    var s := SecondChunk;
    assert s[18..23] == "Paris";
    assert forall i :: 0 <= i < |s| && i != 18 ==> s[i] != 'P';
    ParisOnce(s, 18);
  }

  lemma ParisOnce(s: string, k: nat)
    requires k + 5 <= |s| && s[k..k + 5] == "Paris"
    requires forall i :: 0 <= i < |s| && i != k ==> s[i] != 'P'
    ensures Count(s, "Paris") == 1
  {
    NoStart(s, "Paris", 0, k);
    NoStart(s, "Paris", k + 5, |s|);
    CountAt(s, "Paris", k);
  }

  /** No character of a range opens `sub`, so no occurrence starts there. */
  lemma NoStart(s: string, sub: string, lo: nat, hi: nat)
    requires sub != [] && lo <= hi <= |s| && forall i :: lo <= i < hi ==> s[i] != sub[0]
    ensures forall i :: lo <= i < hi ==> !(sub <= s[i..])
  {
    forall i | lo <= i < hi ensures !(sub <= s[i..]) {
      assert s[i..][0] == s[i];
    }
  }

  /** A text whose only occurrence of `sub` is at `k` counts one. */
  lemma CountAt(s: string, sub: string, k: nat)
    requires sub != [] && k + |sub| <= |s| && s[k..k + |sub|] == sub
    requires forall j :: 0 <= j < k ==> !(sub <= s[j..])
    requires forall j :: k + |sub| <= j < |s| ==> !(sub <= s[j..])
    ensures Count(s, sub) == 1
  {
    CountSkip(s, sub, 0, k);
    assert s[0..] == s;
    assert sub <= s[k..];
    var tail := s[k + |sub|..];
    assert s[k..][|sub|..] == tail;
    forall j | 0 <= j <= |tail| ensures !(sub <= tail[j..]) {
      assert tail[j..] == s[k + |sub| + j..];
    }
    CountPositive(tail, sub);
  }

  /** No occurrence before `k`: counting from `j` is counting from `k`. */
  lemma {:induction false} CountSkip(s: string, sub: string, j: nat, k: nat)
    requires sub != [] && j <= k <= |s| && k + |sub| <= |s|
    requires forall i :: j <= i < k ==> !(sub <= s[i..])
    ensures Count(s[j..], sub) == Count(s[k..], sub)
    decreases k - j
  {
    if j < k {
      assert s[j..][1..] == s[j + 1..];
      CountSkip(s, sub, j + 1, k);
    }
  }

  // --------------------------------------------------------- the counters

  /**
   * The loop that fills the `Counter`: one entry per key, holding the total
   * count of its text over the chunks.
   */
  method CountEntities<K>(keys: set<K>, textOf: K -> string, chunks: seq<string>) returns (counts: map<K, nat>)
    ensures counts.Keys == keys
    ensures forall k :: k in keys ==> counts[k] == TotalCount(chunks, textOf(k))
  {
    counts := map[];
    var rest := keys;
    while rest != {}
      invariant rest <= keys
      invariant counts.Keys == keys - rest
      invariant forall k :: k in counts ==> counts[k] == TotalCount(chunks, textOf(k))
      decreases rest
    {
      var k :| k in rest;
      counts := counts[k := TotalCount(chunks, textOf(k))];
      rest := rest - {k};
    }
  }

  /** `set(human_names).union(set(countries), ...)`: the kept pairs of all five lists. */
  function AllEntries(es: Entities): set<Entry> {
    Elems(es.people) + Elems(es.countries) + Elems(es.dates) + Elems(es.places) + Elems(es.cities)
  }

  /** `human_names.union(countries, ...)` in the scripts that keep texts. */
  function AllTexts(es: Entities): set<string> {
    TextSet(AllEntries(es))
  }

  function EntryText(e: Entry): string {
    e.text
  }

  /** Keying by text never gives more keys than keying by pair. */
  lemma {:induction false} TextKeysFewer(s: set<Entry>)
    ensures |TextSet(s)| <= |s|
    decreases s
  {
    if s != {} {
      var e :| e in s;
      TextKeysFewer(s - {e});
      assert TextSet(s) == TextSet(s - {e}) + {e.text};
    }
  }

  /** The same text kept as a Person and as a City: two pairs, one text key. */
  lemma ExampleTextCollapse(name: string)
    ensures var es := Entities([Entry(name, PersonLabel)], [], [], [], [Entry(name, CityLabel)]);
            |AllEntries(es)| == 2 && AllTexts(es) == {name}
  {
    var es := Entities([Entry(name, PersonLabel)], [], [], [], [Entry(name, CityLabel)]);
    var a, b := Entry(name, PersonLabel), Entry(name, CityLabel);
    var none: seq<Entry> := [];
    assert Elems([a]) == {a} && Elems([b]) == {b} && Elems(none) == {};
    assert AllEntries(es) == {a, b};
    assert a != b by {
      assert PersonLabel[0] != CityLabel[0];
    }
    assert TextSet({a, b}) == {name};
  }

  // -------------------------------------------------------------- the rows

  /** `key=lambda x: x[0]` on `((entity, label), count)` items: tuple order. */
  predicate PairBefore(a: Entry, b: Entry) {
    Less(a.text, b.text) || (a.text == b.text && Less(a.kind, b.kind))
  }

  lemma PairOrder(s: set<Entry>)
    ensures StrictTotalOn(s, PairBefore)
  {
    forall a | a in s ensures !PairBefore(a, a) {
      LessIrreflexive(a.text);
      LessIrreflexive(a.kind);
    }
    forall a, b, c | a in s && b in s && c in s && PairBefore(a, b) && PairBefore(b, c)
      ensures PairBefore(a, c)
    {
      if Less(a.text, b.text) && Less(b.text, c.text) {
        LessTransitive(a.text, b.text, c.text);
      } else if a.text == b.text && b.text == c.text {
        LessTransitive(a.kind, b.kind, c.kind);
      }
    }
    forall a, b | a in s && b in s && a != b ensures PairBefore(a, b) || PairBefore(b, a) {
      LessTotal(a.text, b.text);
      LessTotal(a.kind, b.kind);
    }
  }

  /** `sorted(...)` on plain strings. */
  lemma TextOrder(s: set<string>)
    ensures StrictTotalOn(s, Less)
  {
    forall a | a in s ensures !Less(a, a) {
      LessIrreflexive(a);
    }
    forall a, b, c | a in s && b in s && c in s && Less(a, b) && Less(b, c) ensures Less(a, c) {
      LessTransitive(a, b, c);
    }
    forall a, b | a in s && b in s && a != b ensures Less(a, b) || Less(b, a) {
      LessTotal(a, b);
    }
  }

  /** `sorted(counts.items(), key=lambda x: x[0])`, keeping the keys. */
  method SortPairs(keys: set<Entry>) returns (r: seq<Entry>)
    ensures Elems(r) == keys && |r| == |keys| && NoDup(r)
    ensures forall i, j :: 0 <= i < j < |r| ==> PairBefore(r[i], r[j])
  {
    PairOrder(keys);
    r := SortSet(keys, PairBefore);
  }

  /** `sorted(...)` on the counted texts. */
  method SortStrings(keys: set<string>) returns (r: seq<string>)
    ensures Elems(r) == keys && |r| == |keys| && NoDup(r)
    ensures forall i, j :: 0 <= i < j < |r| ==> Less(r[i], r[j])
  {
    TextOrder(keys);
    r := SortSet(keys, Less);
  }

  const LabelledHeader: seq<string> := ["Link", "Entity", "Label", "Occurrences"]
  const PlainHeader: seq<string> := ["Link", "Entity", "Occurrences"]

  /** `[bio_url, entity, label, count]` */
  datatype LabelledRow = LabelledRow(link: string, entity: string, kind: string, occurrences: nat)

  function KeyOf(row: LabelledRow): Entry {
    Entry(row.entity, row.kind)
  }

  /**
   * The rows under `LabelledHeader`: one per counted pair, in tuple order,
   * each starting with the page's link.
   */
  method LabelledRows(url: string, counts: map<Entry, nat>) returns (rows: seq<LabelledRow>)
    ensures |rows| == |counts.Keys|
    ensures forall i :: 0 <= i < |rows| ==> rows[i].link == url
    ensures forall i :: 0 <= i < |rows| ==> KeyOf(rows[i]) in counts && rows[i].occurrences == counts[KeyOf(rows[i])]
    ensures forall k :: k in counts ==> exists i :: 0 <= i < |rows| && KeyOf(rows[i]) == k
    ensures forall i, j :: 0 <= i < j < |rows| ==> PairBefore(KeyOf(rows[i]), KeyOf(rows[j]))
  {
    var keys := SortPairs(counts.Keys);
    rows := WriteLabelled(url, keys, counts);
    forall k | k in counts ensures exists i :: 0 <= i < |rows| && KeyOf(rows[i]) == k {
      assert k in Elems(keys);
      var i :| 0 <= i < |keys| && keys[i] == k;
      assert KeyOf(rows[i]) == k;
    }
  }

  /** The writing loop: one row per key, in the order given. */
  method WriteLabelled(url: string, keys: seq<Entry>, counts: map<Entry, nat>) returns (rows: seq<LabelledRow>)
    requires forall j :: 0 <= j < |keys| ==> keys[j] in counts
    ensures |rows| == |keys|
    ensures forall j :: 0 <= j < |keys| ==> rows[j] == LabelledRow(url, keys[j].text, keys[j].kind, counts[keys[j]])
  {
    rows := [];
    for i := 0 to |keys|
      invariant |rows| == i
      invariant forall j :: 0 <= j < i ==> rows[j] == LabelledRow(url, keys[j].text, keys[j].kind, counts[keys[j]])
    {
      rows := rows + [LabelledRow(url, keys[i].text, keys[i].kind, counts[keys[i]])];
    }
  }

  /** `[link, entity, count]` where the link is `''` after the first row. */
  datatype PlainRow = PlainRow(link: string, entity: string, occurrences: nat)

  /**
   * The rows under `PlainHeader`, in text order, with the `link_written`
   * flag: the page's link on the first row and `''` on every later one.
   */
  method PlainRows(url: string, counts: map<string, nat>) returns (rows: seq<PlainRow>)
    ensures |rows| == |counts.Keys|
    ensures |rows| > 0 ==> rows[0].link == url
    ensures forall i :: 0 < i < |rows| ==> rows[i].link == ""
    ensures forall i :: 0 <= i < |rows| ==> rows[i].entity in counts && rows[i].occurrences == counts[rows[i].entity]
    ensures forall k :: k in counts ==> exists i :: 0 <= i < |rows| && rows[i].entity == k
    ensures forall i, j :: 0 <= i < j < |rows| ==> Less(rows[i].entity, rows[j].entity)
  {
    var keys := SortStrings(counts.Keys);
    rows := WritePlain(url, keys, counts);
    forall i, j | 0 <= i < j < |rows| ensures Less(rows[i].entity, rows[j].entity) {
      assert rows[i].entity == keys[i] && rows[j].entity == keys[j];
    }
    forall k | k in counts ensures exists i :: 0 <= i < |rows| && rows[i].entity == k {
      assert k in Elems(keys);
      var i :| 0 <= i < |keys| && keys[i] == k;
      assert rows[i].entity == k;
    }
  }

  /** The writing loop with its `link_written` flag. */
  method WritePlain(url: string, keys: seq<string>, counts: map<string, nat>) returns (rows: seq<PlainRow>)
    requires forall j :: 0 <= j < |keys| ==> keys[j] in counts
    ensures |rows| == |keys|
    ensures forall j :: 0 <= j < |keys| ==> rows[j] == PlainRow(if j == 0 then url else "", keys[j], counts[keys[j]])
  {
    rows := [];
    var linkWritten := false;
    for i := 0 to |keys|
      invariant |rows| == i
      invariant linkWritten <==> i > 0
      invariant forall j :: 0 <= j < i ==> rows[j] == PlainRow(if j == 0 then url else "", keys[j], counts[keys[j]])
    {
      if !linkWritten {
        rows := rows + [PlainRow(url, keys[i], counts[keys[i]])];
        linkWritten := true;
      } else {
        rows := rows + [PlainRow("", keys[i], counts[keys[i]])];
      }
    }
  }
}
