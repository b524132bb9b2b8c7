/**
 * The two chunkers that cut page text into pieces small enough for the
 * entity model: the word-safe greedy packer `split_into_chunks` and the
 * fixed-width slicer `chunk_text`.
 */
module Chunker {
  import opened Text
  import opened Outcomes

  /** The words of all chunks in order: `[w for c in chunks for w in c.split()]`. */
  function WordsOf(chunks: seq<string>): seq<string> {
    if chunks == [] then [] else WordsOf(chunks[..|chunks| - 1]) + Split(chunks[|chunks| - 1])
  }

  function Flatten(groups: seq<seq<string>>): seq<string> {
    if groups == [] then [] else Flatten(groups[..|groups| - 1]) + groups[|groups| - 1]
  }

  lemma FlattenSnoc(groups: seq<seq<string>>, g: seq<string>)
    ensures Flatten(groups + [g]) == Flatten(groups) + g
  {
    assert (groups + [g])[..|groups|] == groups;
  }

  lemma {:induction false} WordsOfGroups(chunks: seq<string>, groups: seq<seq<string>>)
    requires |chunks| == |groups|
    requires forall k :: 0 <= k < |chunks| ==> Split(chunks[k]) == groups[k]
    ensures WordsOf(chunks) == Flatten(groups)
  {
    if chunks != [] {
      var n := |chunks| - 1;
      WordsOfGroups(chunks[..n], groups[..n]);
    }
  }

  /**
   * The packing loop after `i` words: the closed chunks are the joins of
   * `groups`, and `current` holds the words of the open chunk.
   */
  ghost predicate PackStruct(words: seq<string>, i: nat, chunks: seq<string>,
                             groups: seq<seq<string>>, current: seq<string>)
  {
    && AllWords(words) && i <= |words|
    && |groups| == |chunks|
    && (forall k :: 0 <= k < |chunks| ==> chunks[k] == Join(groups[k]))
    && (forall k :: 0 <= k < |groups| ==> AllWords(groups[k]))
    && AllWords(current)
    && Flatten(groups) + current == words[..i]
  }

  /** Only a group of at most one word may join to more than `size` characters. */
  ghost predicate PackBounds(size: int, groups: seq<seq<string>>, current: seq<string>) {
    && (forall k :: 0 <= k < |groups| ==> |groups[k]| <= 1 || |Join(groups[k])| <= size)
    && (|current| <= 1 || |Join(current)| <= size)
  }

  /** Only the first group may be empty, and it is exactly when the first word is too long. */
  ghost predicate PackShape(words: seq<string>, size: int, i: nat,
                            groups: seq<seq<string>>, current: seq<string>)
  {
    && (current != [] <==> i > 0)
    && (groups != [] ==> i > 0)
    && (forall k :: 0 < k < |groups| ==> groups[k] != [])
    && ((|groups| > 0 && groups[0] == []) <==> (i > 0 && 0 < |words| && |words[0]| > size))
  }

  /** Each group was closed because the next word would not have fitted. */
  ghost predicate PackGreedy(size: int, groups: seq<seq<string>>, current: seq<string>) {
    && (forall j, k :: 0 <= j && k == j + 1 && k < |groups| && groups[k] != [] ==>
          |Join(groups[j] + [groups[k][0]])| > size)
    && (|groups| > 0 && current != [] ==> |Join(groups[|groups| - 1] + [current[0]])| > size)
  }

  /** One turn of the packing loop on the word at `i`. */
  ghost function PackNext(words: seq<string>, size: int, i: nat,
                          st: (seq<string>, seq<seq<string>>, seq<string>)): (seq<string>, seq<seq<string>>, seq<string>)
    requires i < |words|
  {
    var (chunks, groups, current) := st;
    if |Join(current + [words[i]])| > size
    then (chunks + [Join(current)], groups + [current], [words[i]])
    else (chunks, groups, current + [words[i]])
  }

  // One turn of the loop, from the state before the word at `i` to the state
  // `PackNext` gives, keeps each part of the invariant.

  lemma StructStep(words: seq<string>, size: int, i: nat, chunks: seq<string>,
                   groups: seq<seq<string>>, current: seq<string>,
                   chunks': seq<string>, groups': seq<seq<string>>, current': seq<string>)
    requires PackStruct(words, i, chunks, groups, current) && i < |words|
    requires (chunks', groups', current') == PackNext(words, size, i, (chunks, groups, current))
    ensures PackStruct(words, i + 1, chunks', groups', current')
  {
    assert words[..i + 1] == words[..i] + [words[i]];
    if |Join(current + [words[i]])| > size {
      FlattenSnoc(groups, current);
      assert Flatten(groups') + current' == Flatten(groups) + current + [words[i]];
    } else {
      assert Flatten(groups') + current' == Flatten(groups) + current + [words[i]];
    }
  }

  lemma BoundsStep(words: seq<string>, size: int, i: nat, chunks: seq<string>,
                   groups: seq<seq<string>>, current: seq<string>,
                   chunks': seq<string>, groups': seq<seq<string>>, current': seq<string>)
    requires PackBounds(size, groups, current) && i < |words|
    requires (chunks', groups', current') == PackNext(words, size, i, (chunks, groups, current))
    ensures PackBounds(size, groups', current')
  {
  }

  lemma ShapeStep(words: seq<string>, size: int, i: nat, chunks: seq<string>,
                  groups: seq<seq<string>>, current: seq<string>,
                  chunks': seq<string>, groups': seq<seq<string>>, current': seq<string>)
    requires PackShape(words, size, i, groups, current) && i < |words|
    requires (chunks', groups', current') == PackNext(words, size, i, (chunks, groups, current))
    ensures PackShape(words, size, i + 1, groups', current')
  {
    if i == 0 {
      assert current + [words[i]] == [words[0]];
    }
  }

  lemma GreedyStep(words: seq<string>, size: int, i: nat, chunks: seq<string>,
                   groups: seq<seq<string>>, current: seq<string>,
                   chunks': seq<string>, groups': seq<seq<string>>, current': seq<string>)
    requires PackGreedy(size, groups, current) && i < |words|
    requires groups != [] ==> current != []
    requires (chunks', groups', current') == PackNext(words, size, i, (chunks, groups, current))
    ensures PackGreedy(size, groups', current')
  {
    if current != [] {
      assert (current + [words[i]])[0] == current[0];
    }
  }

  /** The closed chunks, their groups and the open chunk after the first `i` words. */
  ghost function PackState(words: seq<string>, size: int, i: nat): (seq<string>, seq<seq<string>>, seq<string>)
    requires i <= |words|
  {
    if i == 0 then ([], [], []) else PackNext(words, size, i - 1, PackState(words, size, i - 1))
  }

  // Each part of the loop invariant holds of the state after `i` words.

  lemma {:induction false} StructInvariant(words: seq<string>, size: int, i: nat, chunks: seq<string>,
                                          groups: seq<seq<string>>, current: seq<string>)
    requires AllWords(words) && i <= |words|
    requires (chunks, groups, current) == PackState(words, size, i)
    ensures PackStruct(words, i, chunks, groups, current)
  {
    if i == 0 {
      assert words[..0] == [];
    } else {
      var prev := PackState(words, size, i - 1);
      StructInvariant(words, size, i - 1, prev.0, prev.1, prev.2);
      StructStep(words, size, i - 1, prev.0, prev.1, prev.2, chunks, groups, current);
    }
  }

  lemma {:induction false} BoundsInvariant(words: seq<string>, size: int, i: nat, chunks: seq<string>,
                                          groups: seq<seq<string>>, current: seq<string>)
    requires i <= |words|
    requires (chunks, groups, current) == PackState(words, size, i)
    ensures PackBounds(size, groups, current)
  {
    if i > 0 {
      var (c, g, cur) := PackState(words, size, i - 1);
      BoundsInvariant(words, size, i - 1, c, g, cur);
      BoundsStep(words, size, i - 1, c, g, cur, chunks, groups, current);
    }
  }

  lemma {:induction false} ShapeInvariant(words: seq<string>, size: int, i: nat, chunks: seq<string>,
                                         groups: seq<seq<string>>, current: seq<string>)
    requires i <= |words|
    requires (chunks, groups, current) == PackState(words, size, i)
    ensures PackShape(words, size, i, groups, current)
  {
    if i > 0 {
      var (c, g, cur) := PackState(words, size, i - 1);
      ShapeInvariant(words, size, i - 1, c, g, cur);
      ShapeStep(words, size, i - 1, c, g, cur, chunks, groups, current);
    }
  }

  lemma {:induction false} GreedyInvariant(words: seq<string>, size: int, i: nat, chunks: seq<string>,
                                          groups: seq<seq<string>>, current: seq<string>)
    requires i <= |words|
    requires (chunks, groups, current) == PackState(words, size, i)
    ensures PackGreedy(size, groups, current)
  {
    if i > 0 {
      var (c, g, cur) := PackState(words, size, i - 1);
      GreedyInvariant(words, size, i - 1, c, g, cur);
      ShapeInvariant(words, size, i - 1, c, g, cur);
      GreedyStep(words, size, i - 1, c, g, cur, chunks, groups, current);
    }
  }

  /** The chunks once the open chunk, if any, is closed. */
  function Closed<T>(closed: seq<T>, isOpen: bool, last: T): seq<T> {
    if isOpen then closed + [last] else closed
  }

  /** `chunks[k]` is the join of `groups[k]` and splits back into it. */
  ghost predicate SplitsInto(chunks: seq<string>, groups: seq<seq<string>>) {
    |chunks| == |groups| && forall k :: 0 <= k < |chunks| ==> Split(chunks[k]) == groups[k] && chunks[k] == Join(groups[k])
  }

  /** Once every word is packed, each chunk splits back into its group. */
  lemma PackingDone(words: seq<string>, size: int, chunks: seq<string>,
                    groups: seq<seq<string>>, current: seq<string>)
    requires PackStruct(words, |words|, chunks, groups, current)
    ensures SplitsInto(Closed(chunks, current != [], Join(current)), Closed(groups, current != [], current))
    ensures WordsOf(Closed(chunks, current != [], Join(current))) == words
  {
    var fc, fg := Closed(chunks, current != [], Join(current)), Closed(groups, current != [], current);
    if current != [] {
      FlattenSnoc(groups, current);
    }
    forall k | 0 <= k < |fc| ensures Split(fc[k]) == fg[k] && fc[k] == Join(fg[k]) {
      SplitJoin(fg[k]);
    }
    WordsOfGroups(fc, fg);
    assert words[..|words|] == words;
  }

  lemma ResultBounds(size: int, chunks: seq<string>, groups: seq<seq<string>>, current: seq<string>)
    requires PackBounds(size, groups, current)
    requires SplitsInto(Closed(chunks, current != [], Join(current)), Closed(groups, current != [], current))
    ensures var fc := Closed(chunks, current != [], Join(current));
            forall k :: 0 <= k < |fc| ==> |Split(fc[k])| <= 1 || |fc[k]| <= size
  {
    var fc, fg := Closed(chunks, current != [], Join(current)), Closed(groups, current != [], current);
    assert forall k :: 0 <= k < |fg| ==> |fg[k]| <= 1 || |Join(fg[k])| <= size;
  }

  lemma ResultShape(words: seq<string>, size: int, chunks: seq<string>,
                    groups: seq<seq<string>>, current: seq<string>)
    requires PackShape(words, size, |words|, groups, current)
    requires SplitsInto(Closed(chunks, current != [], Join(current)), Closed(groups, current != [], current))
    ensures var fc := Closed(chunks, current != [], Join(current));
            && (forall k :: 0 < k < |fc| ==> Split(fc[k]) != [])
            && ((|fc| > 0 && fc[0] == "") <==> (words != [] && |words[0]| > size))
            && (words == [] ==> fc == [])
  {
    var fc, fg := Closed(chunks, current != [], Join(current)), Closed(groups, current != [], current);
    assert forall k :: 0 < k < |fg| ==> fg[k] != [];
    assert (|fg| > 0 && fg[0] == []) <==> (words != [] && |words[0]| > size);
    if |fc| > 0 {
      SplitJoin(fg[0]);
      assert fc[0] == "" <==> fg[0] == [];
    }
  }

  lemma ResultGreedy(size: int, chunks: seq<string>, groups: seq<seq<string>>, current: seq<string>)
    requires PackGreedy(size, groups, current)
    requires SplitsInto(Closed(chunks, current != [], Join(current)), Closed(groups, current != [], current))
    ensures var fc := Closed(chunks, current != [], Join(current));
            forall j, k :: 0 <= j && k == j + 1 && k < |fc| && Split(fc[k]) != [] ==>
              |Join(Split(fc[j]) + [Split(fc[k])[0]])| > size
  {
    var fc, fg := Closed(chunks, current != [], Join(current)), Closed(groups, current != [], current);
    assert forall j, k :: 0 <= j && k == j + 1 && k < |fg| && fg[k] != [] ==> |Join(fg[j] + [fg[k][0]])| > size;
  }

  /**
   * What `split_into_chunks` promises of its result `chunks` for the words
   * of its input and its `chunk_size`.
   */
  ghost predicate WordSafeChunks(words: seq<string>, size: int, chunks: seq<string>) {
    // no word is cut, dropped or reordered
    && WordsOf(chunks) == words
    // every chunk is a single-space join of its words
    && (forall k :: 0 <= k < |chunks| ==> chunks[k] == Join(Split(chunks[k])))
    // only a chunk of at most one word may be longer than the size
    && (forall k :: 0 <= k < |chunks| ==> |Split(chunks[k])| <= 1 || |chunks[k]| <= size)
    // an empty chunk appears only first, exactly when the first word alone is too long
    && ((|chunks| > 0 && chunks[0] == "") <==> (words != [] && |words[0]| > size))
    && (forall k :: 0 < k < |chunks| ==> Split(chunks[k]) != [])
    // greedy: the next chunk's first word would not have fitted
    && (forall j, k :: 0 <= j && k == j + 1 && k < |chunks| && Split(chunks[k]) != [] ==>
          |Join(Split(chunks[j]) + [Split(chunks[k])[0]])| > size)
    // no words, no chunks
    && (words == [] ==> chunks == [])
  }

  /**
   * `split_into_chunks(content, chunk_size)`: pack the words of `content`
   * greedily into chunks, each a single-space join of consecutive words.
   */
  method SplitIntoChunks(content: string, chunkSize: int) returns (chunks: seq<string>)
    ensures WordSafeChunks(Split(content), chunkSize, chunks)
  {
    var words := Split(content);
    chunks := [];
    var current: seq<string> := [];
    ghost var groups: seq<seq<string>> := [];
    for i := 0 to |words|
      invariant (chunks, groups, current) == PackState(words, chunkSize, i)
    {
      var word := words[i];
      if |Join(current + [word])| > chunkSize {
        chunks := chunks + [Join(current)];
        groups := groups + [current];
        current := [word];
      } else {
        current := current + [word];
      }
    }
    PackResult(words, chunkSize, chunks, groups, current);
    // the open chunk, if any, is closed last
    chunks := Closed(chunks, current != [], Join(current));
  }

  /** What the loop's final state gives once the open chunk is closed. */
  lemma PackResult(words: seq<string>, size: int, chunks: seq<string>,
                   groups: seq<seq<string>>, current: seq<string>)
    requires AllWords(words)
    requires (chunks, groups, current) == PackState(words, size, |words|)
    ensures WordSafeChunks(words, size, Closed(chunks, current != [], Join(current)))
  {
    StructInvariant(words, size, |words|, chunks, groups, current);
    BoundsInvariant(words, size, |words|, chunks, groups, current);
    ShapeInvariant(words, size, |words|, chunks, groups, current);
    GreedyInvariant(words, size, |words|, chunks, groups, current);
    PackingDone(words, size, chunks, groups, current);
    ResultBounds(size, chunks, groups, current);
    ResultShape(words, size, chunks, groups, current);
    ResultGreedy(size, chunks, groups, current);
  }

  // ------------------------------------------------------- fixed width

  function Concat(chunks: seq<string>): string {
    if chunks == [] then [] else chunks[0] + Concat(chunks[1..])
  }

  /** `[text[i:i+m] for i in range(0, len(text), m)]` for a positive `m`. */
  function Slices(text: string, m: nat): seq<string>
    requires m > 0
    decreases |text|
  {
    if text == [] then [] else if |text| <= m then [text] else [text[..m]] + Slices(text[m..], m)
  }

  lemma {:induction false} SlicesConcat(text: string, m: nat)
    requires m > 0
    ensures Concat(Slices(text, m)) == text
    decreases |text|
  {
    if |text| > m {
      SlicesConcat(text[m..], m);
      assert text == text[..m] + text[m..];
    } else if text != [] {
      assert Concat([text]) == text + Concat([]);
    }
  }

  lemma {:induction false} SlicesCount(text: string, m: nat)
    requires m > 0
    ensures |Slices(text, m)| == 0 <==> text == []
    ensures text != [] ==> (|Slices(text, m)| - 1) * m < |text| <= |Slices(text, m)| * m
    decreases |text|
  {
    if |text| > m {
      var rest := text[m..];
      SlicesCount(rest, m);
      var k := |Slices(rest, m)|;
      assert |Slices(text, m)| == k + 1;
      assert (k + 1) * m == k * m + m;
      assert k * m == (k - 1) * m + m;
    }
  }

  lemma {:induction false} SlicesLengths(text: string, m: nat)
    requires m > 0
    ensures forall k :: 0 <= k < |Slices(text, m)| ==> 0 < |Slices(text, m)[k]| <= m
    ensures forall k :: 0 <= k < |Slices(text, m)| - 1 ==> |Slices(text, m)[k]| == m
    decreases |text|
  {
    if |text| > m {
      SlicesLengths(text[m..], m);
      assert Slices(text, m)[1..] == Slices(text[m..], m);
    }
  }

  /** `chunk_text(text, max_length)`: `range` rejects a zero step and is empty for a negative one. */
  function ChunkText(text: string, maxLength: int): (r: Result<seq<string>>)
    ensures r.Failure? <==> maxLength == 0
    ensures maxLength < 0 ==> r == Success([])
    ensures maxLength > 0 ==> r.Success? && Concat(r.value) == text
    // one slice per start index in range(0, len(text), maxLength)
    ensures maxLength > 0 ==> r.Success? && (|r.value| == 0 <==> text == [])
    ensures maxLength > 0 && text != [] ==>
              r.Success? && (|r.value| - 1) * maxLength < |text| <= |r.value| * maxLength
    ensures maxLength > 0 ==> r.Success? && forall k :: 0 <= k < |r.value| ==> 0 < |r.value[k]| <= maxLength
    ensures maxLength > 0 ==> r.Success? && forall k :: 0 <= k < |r.value| - 1 ==> |r.value[k]| == maxLength
  {
    if maxLength == 0 then Failure(ZeroStep)
    else if maxLength < 0 then Success([])
    else
      SlicesConcat(text, maxLength);
      SlicesCount(text, maxLength);
      SlicesLengths(text, maxLength);
      Success(Slices(text, maxLength))
  }

  const GlinerMaxLength: nat := 384

  /** gliner2.py: chunk only text longer than 384 characters, otherwise keep `[text]`. */
  function GlinerChunks(text: string): (r: seq<string>)
    ensures Concat(r) == text
    ensures |text| <= GlinerMaxLength ==> r == [text]
    ensures |text| > GlinerMaxLength ==>
              (|r| - 1) * GlinerMaxLength < |text| <= |r| * GlinerMaxLength
              && forall k :: 0 <= k < |r| ==> 0 < |r[k]| <= GlinerMaxLength
  {
    if |text| > GlinerMaxLength then
      var c := ChunkText(text, GlinerMaxLength);
      c.value
    else
      assert Concat([text]) == text + Concat([]);
      [text]
  }
}
