/**
 * The paragraph collector of gliner2.py: the stripped text of every `<p>`
 * inside a `<div>`, in document order, skipping empty and already-seen
 * texts, each appended to the page text followed by a blank line.
 */
module Paragraphs {
  import opened Text

  /** `p_tag.get_text().strip()` for each raw paragraph text. */
  function StripAll(raw: seq<string>): (ps: seq<string>)
    ensures |ps| == |raw| && forall i :: 0 <= i < |raw| ==> ps[i] == Strip(raw[i])
    // no paragraph text keeps whitespace at either end
    ensures forall i :: 0 <= i < |ps| ==> ps[i] == [] || (!IsSpace(ps[i][0]) && !IsSpace(ps[i][|ps[i]| - 1]))
  {
    seq(|raw|, i requires 0 <= i < |raw| => Strip(raw[i]))
  }

  /** The paragraphs kept from the stripped texts `ps`: the non-empty ones,
      each at its first occurrence. */
  function Kept(ps: seq<string>): seq<string> {
    if ps == [] then []
    else
      var kept := Kept(ps[..|ps| - 1]);
      var p := ps[|ps| - 1];
      if p != "" && p !in kept then kept + [p] else kept
  }

  /** The page text: each paragraph followed by `"\n\n"`. */
  function Render(ps: seq<string>): string {
    if ps == [] then "" else Render(ps[..|ps| - 1]) + ps[|ps| - 1] + "\n\n"
  }

  predicate NoRepeats(s: seq<string>) {
    forall i, j :: 0 <= i < j < |s| ==> s[i] != s[j]
  }

  /** `i` is the first position of `ps` holding `p`. */
  predicate FirstAt(ps: seq<string>, p: string, i: int) {
    0 <= i < |ps| && ps[i] == p && forall j :: 0 <= j < i ==> ps[j] != p
  }

  /** Every non-empty text occurs among the kept paragraphs, and nothing else does. */
  lemma {:induction false} KeptMembers(ps: seq<string>, p: string)
    ensures p in Kept(ps) <==> p != "" && p in ps
  {
    if ps != [] {
      var n := |ps| - 1;
      KeptMembers(ps[..n], p);
      if p in Kept(ps) && p !in Kept(ps[..n]) {
        assert ps[n] == p;
      }
      if exists i :: 0 <= i < n && ps[..n][i] == p {
        var i :| 0 <= i < n && ps[..n][i] == p;
        assert ps[i] == p;
      }
      if p != "" && exists i :: 0 <= i < |ps| && ps[i] == p {
        var i :| 0 <= i < |ps| && ps[i] == p;
        if i < n {
          assert ps[..n][i] == p;
        }
      }
    }
  }

  /** Each paragraph is kept once. */
  lemma {:induction false} KeptNoRepeats(ps: seq<string>)
    ensures NoRepeats(Kept(ps))
  {
    if ps != [] {
      KeptNoRepeats(ps[..|ps| - 1]);
    }
  }

  /** Kept paragraphs appear in the order of their first occurrences. */
  lemma {:induction false} KeptOrder(ps: seq<string>, a: nat, b: nat, i: int, j: int)
    requires a < b < |Kept(ps)|
    requires FirstAt(ps, Kept(ps)[a], i) && FirstAt(ps, Kept(ps)[b], j)
    ensures i < j
  {
    assert ps != [];
    var n := |ps| - 1;
    var kept := Kept(ps[..n]);
    var p := ps[n];
    KeptNoRepeats(ps);
    if b < |kept| {
      // both were kept from the shorter prefix, where they occur first too
      KeptMembers(ps[..n], kept[a]);
      KeptMembers(ps[..n], kept[b]);
      var i' :| 0 <= i' < n && ps[..n][i'] == kept[a];
      var j' :| 0 <= j' < n && ps[..n][j'] == kept[b];
      assert i <= i' && j <= j';
      assert FirstAt(ps[..n], kept[a], i);
      assert FirstAt(ps[..n], kept[b], j);
      KeptOrder(ps[..n], a, b, i, j);
    } else {
      // Kept(ps)[b] is the last text, first seen there
      assert Kept(ps)[b] == p && p !in kept;
      KeptMembers(ps[..n], p);
      KeptMembers(ps[..n], kept[a]);
      var i' :| 0 <= i' < n && ps[..n][i'] == kept[a];
      assert i <= i' < n;
    }
  }

  /**
   * The collecting loop of gliner2.py: `seen` holds the kept texts and
   * `text` grows by each new paragraph and a blank line.
   */
  method CollectText(raw: seq<string>) returns (text: string, seen: set<string>)
    ensures text == Render(Kept(StripAll(raw)))
    ensures forall p :: p in seen <==> p in Kept(StripAll(raw))
  {
    ghost var ps := StripAll(raw);
    text := "";
    seen := {};
    ghost var kept: seq<string> := [];
    for i := 0 to |raw|
      invariant kept == Kept(ps[..i])
      invariant text == Render(kept)
      invariant forall p :: p in seen <==> p in kept
    {
      assert ps[..i + 1][..i] == ps[..i];
      var p := Strip(raw[i]);
      if p != "" && p !in seen {
        seen := seen + {p};
        text := text + p + "\n\n";
        kept := kept + [p];
      }
    }
    assert ps[..|raw|] == ps;
  }
}
