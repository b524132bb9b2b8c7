/**
 * The two ways a biography page is cut out of its document: between two
 * user-given phrases of the page text, or as the `<p>` siblings between the
 * "Biography" and "Exhibitions" headings.
 */
module Segmenter {
  import opened Text
  import opened Outcomes
  import opened Chunker

  // ------------------------------------------------------------- phrases

  /** `s` is where `start` is first found, and `e` where `end` is first found from `s`. */
  predicate FoundAt(content: string, startPhrase: string, endPhrase: string, s: int, e: int) {
    && 0 <= s <= e <= |content|
    && startPhrase <= content[s..] && endPhrase <= content[e..]
    && (forall j :: 0 <= j < s ==> !(startPhrase <= content[j..]))
    && (forall j :: s <= j < e ==> !(endPhrase <= content[j..]))
  }

  /**
   * `content[s:e].strip()` where `s = content.find(start)` and
   * `e = content.find(end, s)`, or `None` when either is -1.
   */
  function PhraseSlice(content: string, startPhrase: string, endPhrase: string): (r: Option<string>)
    ensures r.Some? <==> Find(content, startPhrase, 0) != -1
                         && Find(content, endPhrase, Find(content, startPhrase, 0)) != -1
    ensures r.Some? ==>
              exists s, e :: FoundAt(content, startPhrase, endPhrase, s, e) && r.value == Strip(content[s..e])
  {
    var s := Find(content, startPhrase, 0);
    if s == -1 then None
    else
      var e := Find(content, endPhrase, s);
      if e == -1 then None
      else
        assert FoundAt(content, startPhrase, endPhrase, s, e);
        Some(Strip(content[s..e]))
  }

  /** Both phrases are absent or one is missing exactly when the start phrase
      is absent or the end phrase does not occur at or after it. */
  lemma PhraseSliceNone(content: string, startPhrase: string, endPhrase: string)
    ensures PhraseSlice(content, startPhrase, endPhrase).None? <==>
            !Contains(content, startPhrase)
            || exists s :: 0 <= s <= |content| && startPhrase <= content[s..]
                 && (forall j :: 0 <= j < s ==> !(startPhrase <= content[j..]))
                 && (forall j :: s <= j <= |content| ==> !(endPhrase <= content[j..]))
  {
  }

  /** The same phrase at both ends cuts out nothing: `find` meets it at `s`. */
  lemma SamePhraseIsEmpty(content: string, phrase: string)
    requires Contains(content, phrase)
    ensures PhraseSlice(content, phrase, phrase) == Some("")
  {
    var s := Find(content, phrase, 0);
    assert Find(content, phrase, s) == s;
    assert content[s..s] == "";
  }

  /** The sentence returned in place of chunks when a phrase is missing. */
  const NotFoundSentence := "Specified phrases not found in the content."

  /** What a script does when a phrase is missing. */
  datatype MissingPhrases =
    /** v3/Web_scrapping.py returns `[NotFoundSentence]` */
    | ReturnSentence
    /** v3/trial.py raises `ValueError` */
    | RaiseValueError

  /** The default `chunk_size` of `split_into_chunks`. */
  const ChunkSize := 500

  /**
   * `fetch_main_content_advanced(url, start_phrase, end_phrase)` given the
   * response's status code and the page text it was extracted from.
   */
  method FetchMainContentAdvanced(url: string, status: int, content: string,
                                  startPhrase: string, endPhrase: string,
                                  missing: MissingPhrases)
    returns (r: Result<seq<string>>)
    ensures status != 200 ==> r == Failure(FetchFailed(url, status))
    ensures status == 200 && PhraseSlice(content, startPhrase, endPhrase).None? ==>
              r == if missing == ReturnSentence then Success([NotFoundSentence]) else Failure(PhrasesNotFound)
    ensures status == 200 && PhraseSlice(content, startPhrase, endPhrase).Some? ==>
              var text := PhraseSlice(content, startPhrase, endPhrase).value;
              r.Success? && WordSafeChunks(Split(text), ChunkSize, r.value)
  {
    if status != 200 {
      return Failure(FetchFailed(url, status));
    }
    match PhraseSlice(content, startPhrase, endPhrase)
    case None =>
      r := if missing == ReturnSentence then Success([NotFoundSentence]) else Failure(PhrasesNotFound);
    case Some(text) =>
      var chunks := SplitIntoChunks(text, ChunkSize);
      r := Success(chunks);
  }

  // ----------------------------------------------------------- structure

  /**
   * One element of the parsed page, in document order: its tag name, its
   * text, its attributes, and an identifier of its parent element.
   */
  datatype Element = Element(tag: string, text: string, attrs: map<string, string>, parent: nat)

  /** BeautifulSoup's `==` on tags: the same name, attributes and contents
      (the text stands for the contents); where the tag sits plays no part. */
  predicate SameTag(a: Element, b: Element) {
    a.tag == b.tag && a.text == b.text && a.attrs == b.attrs
  }

  /** `soup.find('h1', string=lambda t: t and word in t.lower())` */
  function FindHeader(doc: seq<Element>, word: string): (r: Option<nat>)
    ensures r.Some? ==> r.value < |doc| && IsHeader(doc[r.value], word)
                        && forall j :: 0 <= j < r.value ==> !IsHeader(doc[j], word)
    ensures r.None? ==> forall j :: 0 <= j < |doc| ==> !IsHeader(doc[j], word)
  {
    FindHeaderFrom(doc, word, 0)
  }

  predicate IsHeader(e: Element, word: string) {
    e.tag == "h1" && e.text != "" && Contains(Lower(e.text), word)
  }

  function FindHeaderFrom(doc: seq<Element>, word: string, from: nat): (r: Option<nat>)
    requires from <= |doc|
    ensures r.Some? ==> from <= r.value < |doc| && IsHeader(doc[r.value], word)
                        && forall j :: from <= j < r.value ==> !IsHeader(doc[j], word)
    ensures r.None? ==> forall j :: from <= j < |doc| ==> !IsHeader(doc[j], word)
    decreases |doc| - from
  {
    if from == |doc| then None
    else if IsHeader(doc[from], word) then Some(from)
    else FindHeaderFrom(doc, word, from + 1)
  }

  /** `j` is a later sibling of the element at `b`. */
  predicate IsNextSibling(doc: seq<Element>, b: nat, j: int)
    requires b < |doc|
  {
    b < j < |doc| && doc[j].parent == doc[b].parent
  }

  /** Where the walk over the siblings after `b` stops: the first one equal to
      `stop` as a tag, or the end of the document. */
  function StopIndex(doc: seq<Element>, b: nat, stop: Element, from: nat): (k: nat)
    requires b < from <= |doc|
    ensures from <= k <= |doc|
    ensures k < |doc| ==> IsNextSibling(doc, b, k) && SameTag(doc[k], stop)
    ensures forall j :: from <= j < k && IsNextSibling(doc, b, j) ==> !SameTag(doc[j], stop)
    decreases |doc| - from
  {
    if from == |doc| then |doc|
    else if doc[from].parent == doc[b].parent && SameTag(doc[from], stop) then from
    else StopIndex(doc, b, stop, from + 1)
  }

  /** The texts of the `<p>` siblings of `b` at positions `lo` up to `hi`. */
  function ParagraphTexts(doc: seq<Element>, b: nat, lo: nat, hi: nat): (ps: seq<string>)
    requires b < lo <= hi <= |doc|
    decreases hi
  {
    if lo == hi then []
    else ParagraphTexts(doc, b, lo, hi - 1)
         + (if IsNextSibling(doc, b, hi - 1) && doc[hi - 1].tag == "p" then [doc[hi - 1].text] else [])
  }

  /** A text is collected exactly when some `<p>` sibling in the range holds it. */
  lemma {:induction false} ParagraphTextsMembers(doc: seq<Element>, b: nat, lo: nat, hi: nat, t: string)
    requires b < lo <= hi <= |doc|
    ensures t in ParagraphTexts(doc, b, lo, hi) <==>
            (exists j :: lo <= j < hi && IsNextSibling(doc, b, j) && doc[j].tag == "p" && doc[j].text == t)
    decreases hi
  {
    if lo < hi {
      ParagraphTextsMembers(doc, b, lo, hi - 1, t);
    }
  }

  /** The lower-case words the two headings are found by. */
  const BiographyWord := "biography"
  const ExhibitionsWord := "exhibitions"

  /** The content the structural walk yields. */
  ghost function Biography(doc: seq<Element>): seq<string> {
    var bio, exh := FindHeader(doc, BiographyWord), FindHeader(doc, ExhibitionsWord);
    if bio.None? || exh.None? then []
    else ParagraphTexts(doc, bio.value, bio.value + 1, StopIndex(doc, bio.value, doc[exh.value], bio.value + 1))
  }

  /** A text is in the content exactly when it is a `<p>` sibling after the
      Biography heading and before the first sibling equal to the Exhibitions heading. */
  lemma BiographyMembers(doc: seq<Element>, t: string)
    requires FindHeader(doc, BiographyWord).Some? && FindHeader(doc, ExhibitionsWord).Some?
    ensures t in Biography(doc) <==>
              BeforeStop(doc, FindHeader(doc, BiographyWord).value, doc[FindHeader(doc, ExhibitionsWord).value], t)
  {
    var b := FindHeader(doc, BiographyWord).value;
    var stop := doc[FindHeader(doc, ExhibitionsWord).value];
    BiographyFound(doc);
    WalkMembers(doc, b, stop, t);
  }

  /** `t` is the text of a `<p>` sibling of `b` with no sibling equal to
      `stop` as a tag after `b` up to it. */
  ghost predicate BeforeStop(doc: seq<Element>, b: nat, stop: Element, t: string)
    requires b < |doc|
  {
    exists j :: IsNextSibling(doc, b, j) && doc[j].tag == "p" && doc[j].text == t
                && forall i :: b < i <= j && IsNextSibling(doc, b, i) ==> !SameTag(doc[i], stop)
  }

  /** The walk from `b` keeps a text exactly when a `<p>` sibling holds it
      and no sibling up to that one equals `stop`. */
  lemma WalkMembers(doc: seq<Element>, b: nat, stop: Element, t: string)
    requires b < |doc|
    ensures t in ParagraphTexts(doc, b, b + 1, StopIndex(doc, b, stop, b + 1)) <==> BeforeStop(doc, b, stop, t)
  {
    var k := StopIndex(doc, b, stop, b + 1);
    ParagraphTextsMembers(doc, b, b + 1, k, t);
    if BeforeStop(doc, b, stop, t) {
      var j :| IsNextSibling(doc, b, j) && doc[j].tag == "p" && doc[j].text == t
               && forall i :: b < i <= j && IsNextSibling(doc, b, i) ==> !SameTag(doc[i], stop);
      StopBeyond(doc, b, stop, b + 1, j);
    }
  }

  /** A walk that meets no equal sibling up to `j` stops after `j`. */
  lemma {:induction false} StopBeyond(doc: seq<Element>, b: nat, stop: Element, from: nat, j: nat)
    requires b < from <= j < |doc|
    requires forall i :: from <= i <= j && IsNextSibling(doc, b, i) ==> !SameTag(doc[i], stop)
    ensures j < StopIndex(doc, b, stop, from)
    decreases j - from
  {
    if from < j {
      StopBeyond(doc, b, stop, from + 1, j);
    }
  }

  /**
   * The structural extraction: find the Biography and Exhibitions headings
   * and walk the siblings between them. Neither heading found, or only one,
   * gives `[]`.
   */
  method BiographyContent(doc: seq<Element>) returns (content: seq<string>)
    ensures content == Biography(doc)
    ensures FindHeader(doc, BiographyWord).None? || FindHeader(doc, ExhibitionsWord).None? ==> content == []
  {
    var bio := FindHeader(doc, BiographyWord);
    var exh := FindHeader(doc, ExhibitionsWord);
    if bio.None? || exh.None? {
      return [];
    }
    content := SiblingParagraphs(doc, bio.value, doc[exh.value]);
    BiographyFound(doc);
  }

  /**
   * The sibling walk: from the next sibling of the element at `b`, stop at
   * the first sibling equal to `stop`, and keep the texts of `<p>` siblings.
   */
  method SiblingParagraphs(doc: seq<Element>, b: nat, stop: Element) returns (content: seq<string>)
    requires b < |doc|
    ensures content == ParagraphTexts(doc, b, b + 1, StopIndex(doc, b, stop, b + 1))
  {
    content := [];
    var j := b + 1;
    while j < |doc|
      invariant b < j <= |doc|
      invariant forall i :: b < i < j && IsNextSibling(doc, b, i) ==> !SameTag(doc[i], stop)
      invariant content == ParagraphTexts(doc, b, b + 1, j)
      decreases |doc| - j
    {
      if doc[j].parent == doc[b].parent {
        if SameTag(doc[j], stop) {
          break;
        }
        if doc[j].tag == "p" {
          content := content + [doc[j].text];
        }
      }
      j := j + 1;
    }
    StopAt(doc, b, stop, j);
  }

  /** With both headings found, the content is the walk up to the stop index. */
  /** A copy of the Exhibitions header under the Biography header's parent stops
      the walk, even when the header found first sits under another parent:
      tags compare by name, text and attributes, not by position. */
  lemma StopUnderOtherParent(bio: Element, exh: Element, x: Element, y: Element)
    requires IsHeader(bio, BiographyWord) && !IsHeader(bio, ExhibitionsWord)
    requires IsHeader(exh, ExhibitionsWord) && exh.parent != bio.parent
    requires x.tag == "p" && x.parent == bio.parent && y.tag == "p" && y.parent == bio.parent
    ensures Biography([bio, exh, x, exh.(parent := bio.parent), y]) == [x.text]
  {
    var doc := [bio, exh, x, exh.(parent := bio.parent), y];
    assert FindHeader(doc, BiographyWord) == Some(0);
    assert FindHeaderFrom(doc, ExhibitionsWord, 1) == Some(1);
    assert FindHeader(doc, ExhibitionsWord) == Some(1);
    assert SameTag(doc[3], doc[1]) && !SameTag(doc[2], doc[1]);
    assert StopIndex(doc, 0, doc[1], 3) == 3;
    assert StopIndex(doc, 0, doc[1], 1) == 3;
    assert ParagraphTexts(doc, 0, 1, 3) == [x.text];
  }

  lemma BiographyFound(doc: seq<Element>)
    requires FindHeader(doc, BiographyWord).Some? && FindHeader(doc, ExhibitionsWord).Some?
    ensures var b := FindHeader(doc, BiographyWord).value;
            Biography(doc) == ParagraphTexts(doc, b, b + 1, StopIndex(doc, b, doc[FindHeader(doc, ExhibitionsWord).value], b + 1))
  {
  }

  /** A walk that has passed no equal sibling and is at the end or at an equal
      sibling has reached the stop index. */
  lemma {:induction false} StopAt(doc: seq<Element>, b: nat, stop: Element, j: nat)
    requires b < j <= |doc|
    requires forall i :: b < i < j && IsNextSibling(doc, b, i) ==> !SameTag(doc[i], stop)
    requires j == |doc| || (IsNextSibling(doc, b, j) && SameTag(doc[j], stop))
    ensures StopIndex(doc, b, stop, b + 1) == j
  {
  }
}
