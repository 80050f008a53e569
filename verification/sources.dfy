/**
 `get_sources`: the documents an answer cites. The keys are the text after
 the last "SOURCES: " of the answer, split on ", "; the result keeps, in
 their original order, the documents whose `source` is one of the keys.
 */
module Sources {
  import opened Strings
  import opened Tokens

  /** The literal marker that introduces the cited sources. */
  const SourcesMarker: string := "SOURCES: "

  /** The separator between cited sources. */
  const KeySeparator: string := ", "

  /**
   The last piece of `s.split(sep)`: the whole text when `sep` does not
   occur, otherwise the separator-free text after the last occurrence.
   */
  function LastPiece(s: string, sep: string): (r: string)
    requires |sep| > 0
    ensures forall j: nat :: !OccursAt(r, sep, j)
    ensures IndexOf(s, sep).None? ==> r == s
    ensures IndexOf(s, sep).Some? ==> EndsWithAfter(s, sep, r)
  {
    var pieces := Split(s, sep);
    if IndexOf(s, sep).Some? then
      SplitLastPiece(s, sep);
      pieces[|pieces| - 1]
    else
      pieces[|pieces| - 1]
  }

  /** The source keys an answer cites. */
  function SourceKeys(outputText: string): (keys: seq<string>)
    ensures |keys| >= 1
    ensures Join(keys, KeySeparator) == LastPiece(outputText, SourcesMarker)
    ensures forall i: nat, j: nat :: i < |keys| ==> !OccursAt(keys[i], KeySeparator, j)
  {
    Split(LastPiece(outputText, SourcesMarker), KeySeparator)
  }

  /** `sub` is `s` with some elements left out and the rest in their original order. */
  predicate IsSubsequence<T(==)>(sub: seq<T>, s: seq<T>)
    decreases |s|
  {
    if |sub| == 0 then true
    else if |s| == 0 then false
    else if sub[0] == s[0] then IsSubsequence(sub[1..], s[1..])
    else IsSubsequence(sub, s[1..])
  }

  /** The loop of `get_sources`: the documents whose source is among `keys`, in order. */
  function FilterBySource(docs: seq<Document>, keys: seq<string>): (r: seq<Document>)
    ensures forall d :: d in r <==> d in docs && d.source in keys
    ensures forall d :: multiset(r)[d] == if d.source in keys then multiset(docs)[d] else 0
    ensures IsSubsequence(r, docs)
  {
    if |docs| == 0 then []
    else
      var rest := FilterBySource(docs[1..], keys);
      assert docs == [docs[0]] + docs[1..];
      if docs[0].source in keys then
        assert ([docs[0]] + rest)[1..] == rest;
        [docs[0]] + rest
      else rest
  }

  /**
   `get_sources(answer, docs)`: exactly the documents whose source is cited
   after the last "SOURCES: ", in their original order, each as many times as
   it occurs in `docs`.
   */
  function GetSources(outputText: string, docs: seq<Document>): (r: seq<Document>)
    ensures forall d :: d in r <==> d in docs && d.source in SourceKeys(outputText)
    ensures forall d :: multiset(r)[d] == if d.source in SourceKeys(outputText) then multiset(docs)[d] else 0
    ensures IsSubsequence(r, docs)
  {
    FilterBySource(docs, SourceKeys(outputText))
  }

  /** No proper suffix of "SOURCES: " is also a prefix of it, so two occurrences never overlap. */
  lemma MarkerHasNoBorder(k: nat)
    requires 0 < k < |SourcesMarker|
    ensures SourcesMarker[k..] != SourcesMarker[..|SourcesMarker| - k]
  {
    assert SourcesMarker[k..][|SourcesMarker| - k - 1] == ' ';
    assert SourcesMarker[..|SourcesMarker| - k][|SourcesMarker| - k - 1] != ' ';
  }

  /**
   With one "SOURCES: " in the answer, the keys are the text after it split
   on ", ".
   */
  lemma SourceKeysAfterMarker(body: string, cited: string)
    requires forall j: nat :: !OccursAt(body, SourcesMarker, j)
    requires forall j: nat :: !OccursAt(cited, SourcesMarker, j)
    ensures SourceKeys(body + SourcesMarker + cited) == Split(cited, KeySeparator)
  {
    var m := SourcesMarker;
    var s := body + m + cited;
    assert OccursAt(s, m, |body|) by { assert s[|body|..|body| + |m|] == m; }
    forall j: nat | j < |body| ensures !OccursAt(s, m, j) {
      if j + |m| <= |body| {
        assert s[j..j + |m|] == body[j..j + |m|];
        assert !OccursAt(body, m, j);
      } else if OccursAt(s, m, j) {
        var k := |body| - j;
        assert s[j..j + |m|][k..] == m[..|m| - k];
        MarkerHasNoBorder(k);
        assert false;
      }
    }
    IndexOfUnique(s, m, |body|);
    assert s[..|body|] == body;
    assert s[|body| + |m|..] == cited;
    assert Split(cited, m) == [cited];
  }
}
