/**
 Citation post-processing of a generated answer. The answer is split with
 the case-insensitive regular expression `sources?:?\W*`; the text before the
 first match is the answer body, and the text between the first and the
 second match (or the end) is the citation list. Its spaces are removed, it
 is split on commas, and each citation becomes a numbered link whose URL is
 the citation followed by the storage access (SAS) token. When there is no
 match, or no SAS token in the environment, the answer is kept as it is.
 */
module Citations {
  import opened Wrappers
  import opened Strings
  import opened Sources

  /** `\w` restricted to ASCII: letters, digits and the underscore. */
  predicate IsWordChar(c: char)
  {
    'a' <= c <= 'z' || 'A' <= c <= 'Z' || '0' <= c <= '9' || c == '_'
  }

  /** `c` is `lower` or `upper`: one letter of the pattern, ignoring case. */
  predicate Folds(c: char, lower: char, upper: char)
  {
    c == lower || c == upper
  }

  /**
   `c` matches the pattern letter `s` ignoring case: Python also folds
   LATIN SMALL LETTER LONG S to `s`.
   */
  predicate FoldsToS(c: char)
  {
    Folds(c, 's', 'S') || c == '\U{017F}'
  }

  /** The six letters `source` start at `p`, ignoring case. */
  predicate StemAt(s: string, p: nat)
  {
    && p + 6 <= |s|
    && FoldsToS(s[p]) && Folds(s[p + 1], 'o', 'O') && Folds(s[p + 2], 'u', 'U')
    && Folds(s[p + 3], 'r', 'R') && Folds(s[p + 4], 'c', 'C') && Folds(s[p + 5], 'e', 'E')
  }

  /** The first index at or after `q` that is not a non-word character: where `\W*` stops. */
  function SkipNonWord(s: string, q: nat): (r: nat)
    requires q <= |s|
    ensures q <= r <= |s|
    ensures forall i :: q <= i < r ==> !IsWordChar(s[i])
    ensures r < |s| ==> IsWordChar(s[r])
    decreases |s| - q
  {
    if q == |s| || IsWordChar(s[q]) then q else SkipNonWord(s, q + 1)
  }

  /**
   `e` is where the greedy `s?:?\W*` after the stem at `p` stops: at a word
   character or the end of the text, having passed only non-word characters
   except an `s` right after the stem, which it always takes.
   */
  predicate GreedyEnd(s: string, p: nat, e: nat)
  {
    && p + 6 <= e <= |s|
    && (e == |s| || IsWordChar(s[e]))
    && (forall i :: p + 6 <= i < e ==> !IsWordChar(s[i]) || (i == p + 6 && FoldsToS(s[i])))
    && (p + 6 < |s| && FoldsToS(s[p + 6]) ==> e > p + 6)
  }

  /**
   Where a match of `sources?:?\W*` starting at `p` ends, if one starts
   there. Every quantifier is greedy and what follows always matches, so the
   optional `s`, the optional colon and the run of non-word characters are
   taken whenever present.
   */
  function MarkerEnd(s: string, p: nat): (r: Option<nat>)
    ensures r.Some? <==> StemAt(s, p)
    ensures r.Some? ==> p + 6 <= r.value <= |s|
    ensures r.Some? ==> GreedyEnd(s, p, r.value)
  {
    if StemAt(s, p) then
      var q1 := if p + 6 < |s| && FoldsToS(s[p + 6]) then p + 7 else p + 6;
      var q2 := if q1 < |s| && s[q1] == ':' then q1 + 1 else q1;
      Some(SkipNonWord(s, q2))
    else None
  }

  /** A match of the marker pattern: the text `s[start..end]`. */
  datatype Span = Span(start: nat, end: nat)

  /** The leftmost match of the marker pattern starting at or after `from`. */
  function FirstMarker(s: string, from: nat): (r: Option<Span>)
    requires from <= |s|
    ensures r.Some? ==> from <= r.value.start && MarkerEnd(s, r.value.start) == Some(r.value.end)
    ensures r.Some? ==> forall q :: from <= q < r.value.start ==> !StemAt(s, q)
    ensures r.None? ==> forall q :: from <= q <= |s| ==> !StemAt(s, q)
    decreases |s| - from
  {
    match MarkerEnd(s, from)
    case Some(e) => Some(Span(from, e))
    case None => if from == |s| then None else FirstMarker(s, from + 1)
  }

  /**
   Python's `re.split` with the marker pattern, from index `from` on: the
   texts between consecutive non-overlapping matches.
   */
  function MarkerSplit(s: string, from: nat): (r: seq<string>)
    requires from <= |s|
    ensures |r| >= 1
    decreases |s| - from
  {
    match FirstMarker(s, from)
    case None => [s[from..]]
    case Some(span) => [s[from..span.start]] + MarkerSplit(s, span.end)
  }

  /** No piece of the split contains a match. */
  lemma {:induction false} MarkerSplitPiecesHaveNoMatch(s: string, from: nat)
    requires from <= |s|
    ensures forall i, q: nat :: 0 <= i < |MarkerSplit(s, from)| ==> !StemAt(MarkerSplit(s, from)[i], q)
    decreases |s| - from
  {
    var r := MarkerSplit(s, from);
    match FirstMarker(s, from)
    case None =>
      NoStemInSlice(s, from, |s|);
      assert s[from..] == s[from..|s|];
      assert r == [s[from..]];
    case Some(span) =>
      NoStemInSlice(s, from, span.start);
      MarkerSplitPiecesHaveNoMatch(s, span.end);
      var rest := MarkerSplit(s, span.end);
      assert r == [s[from..span.start]] + rest;
      assert forall i :: 1 <= i < |r| ==> r[i] == rest[i - 1];
  }

  /** A slice of a text holds no stem where the text holds none that starts inside the slice. */
  lemma NoStemInSlice(s: string, a: nat, b: nat)
    requires a <= b <= |s|
    requires forall q :: a <= q < b ==> !StemAt(s, q)
    ensures forall q: nat :: !StemAt(s[a..b], q)
  {
    forall q: nat | StemAt(s[a..b], q) ensures false {
      var t := s[a..b];
      assert t[q] == s[a + q] && t[q + 1] == s[a + q + 1] && t[q + 2] == s[a + q + 2];
      assert t[q + 3] == s[a + q + 3] && t[q + 4] == s[a + q + 4] && t[q + 5] == s[a + q + 5];
      assert StemAt(s, a + q);
    }
  }

  /**
   Without a match `re.split` returns the whole text as its only piece. With
   one, the first piece is the text before the leftmost match and the second
   runs from the end of that match to the start of the next match, or to the
   end of the text.
   */
  lemma MarkerSplitFirstPieces(s: string)
    ensures FirstMarker(s, 0).None? ==> MarkerSplit(s, 0) == [s]
    ensures FirstMarker(s, 0).Some? ==>
              var first := FirstMarker(s, 0).value;
              var stop := match FirstMarker(s, first.end)
                          case None => |s|
                          case Some(second) => second.start;
              && |MarkerSplit(s, 0)| >= 2
              && first.end <= stop <= |s|
              && MarkerSplit(s, 0)[0] == s[..first.start]
              && MarkerSplit(s, 0)[1] == s[first.end..stop]
  {
    MarkerSplitHead(s, 0);
    if FirstMarker(s, 0).Some? {
      var first := FirstMarker(s, 0).value;
      MarkerSplitHead(s, first.end);
      var rest := MarkerSplit(s, first.end);
      assert MarkerSplit(s, 0) == [s[..first.start]] + rest;
    }
  }

  /** The first piece of the split from `from` runs to the next match, or to the end. */
  lemma MarkerSplitHead(s: string, from: nat)
    requires from <= |s|
    ensures var stop := match FirstMarker(s, from)
                        case None => |s|
                        case Some(m) => m.start;
            from <= stop <= |s| && MarkerSplit(s, from)[0] == s[from..stop]
  {
  }

  /** The header put between the answer body and the links. */
  const SourcesHeader: string := "<br><u>Sources</u>: "

  /** The `n`-th numbered footnote link, pointing at `citation` followed by `sasToken`. */
  function Link(citation: string, sasToken: string, n: nat): string
  {
    "<sup><a href=\"" + citation + sasToken + "\">[" + DecimalString(n) + "]</a></sup>"
  }

  /** The links for `citations`, numbered from `n` on. */
  function CitationLinks(citations: seq<string>, sasToken: string, n: nat): string
  {
    if |citations| == 0 then ""
    else Link(citations[0], sasToken, n) + CitationLinks(citations[1..], sasToken, n + 1)
  }

  /** The links for `citations` one by one, numbered from `n` on. */
  function NumberedLinks(citations: seq<string>, sasToken: string, n: nat): (r: seq<string>)
    ensures |r| == |citations|
    ensures forall i :: 0 <= i < |citations| ==> r[i] == Link(citations[i], sasToken, n + i)
  {
    if |citations| == 0 then []
    else
      var rest := NumberedLinks(citations[1..], sasToken, n + 1);
      assert forall i :: 1 <= i < |citations| ==> citations[1..][i - 1] == citations[i];
      [Link(citations[0], sasToken, n)] + rest
  }

  /** The links are numbered consecutively: the `i`-th citation (0-based) gets number `n + i`. */
  lemma {:induction false} CitationLinksNumbering(citations: seq<string>, sasToken: string, n: nat)
    ensures CitationLinks(citations, sasToken, n) == Concat(NumberedLinks(citations, sasToken, n))
    decreases |citations|
  {
    if |citations| > 0 {
      CitationLinksNumbering(citations[1..], sasToken, n + 1);
      assert NumberedLinks(citations, sasToken, n)[1..] == NumberedLinks(citations[1..], sasToken, n + 1);
    }
  }

  /** The citation list of a citation segment: spaces removed, split on commas. */
  function CitationList(segment: string): (r: seq<string>)
    ensures |r| >= 1
    ensures Join(r, ",") == RemoveChar(segment, ' ')
    ensures forall i :: 0 <= i < |r| ==> forall k :: 0 <= k < |r[i]| ==> r[i][k] != ' ' && r[i][k] != ','
  {
    var r := Split(RemoveChar(segment, ' '), ",");
    JoinedPartsHaveNoChar(r, ",", ' ');
    forall i, k | 0 <= i < |r| && 0 <= k < |r[i]| ensures r[i][k] != ',' {
      assert r[i][k..k + 1] == [r[i][k]];
      assert !OccursAt(r[i], ",", k);
    }
    r
  }

  /** A character missing from a join is missing from every part. */
  lemma {:induction false} JoinedPartsHaveNoChar(parts: seq<string>, sep: string, c: char)
    requires forall k :: 0 <= k < |Join(parts, sep)| ==> Join(parts, sep)[k] != c
    ensures forall i :: 0 <= i < |parts| ==> forall k :: 0 <= k < |parts[i]| ==> parts[i][k] != c
    decreases |parts|
  {
    if |parts| == 1 {
      assert Join(parts, sep) == parts[0];
    } else if |parts| > 1 {
      var j := Join(parts, sep);
      assert j == parts[0] + sep + Join(parts[1..], sep);
      forall k | 0 <= k < |Join(parts[1..], sep)| ensures Join(parts[1..], sep)[k] != c {
        assert Join(parts[1..], sep)[k] == j[|parts[0]| + |sep| + k];
      }
      JoinedPartsHaveNoChar(parts[1..], sep, c);
      forall i | 0 <= i < |parts| ensures forall k :: 0 <= k < |parts[i]| ==> parts[i][k] != c {
        if i == 0 {
          assert forall k :: 0 <= k < |parts[0]| ==> parts[0][k] == j[k];
        } else {
          assert parts[i] == parts[1..][i - 1];
        }
      }
    }
  }

  /**
   The citation post-processing of `DocSearchTool._run`; `sasToken` is the
   `DATASOURCE_SAS_TOKEN` environment variable, `None` when it is unset.
   */
  function AddCitations(answer: string, sasToken: Option<string>): (r: string)
    ensures r == answer <==> FirstMarker(answer, 0).None? || sasToken.None?
    ensures FirstMarker(answer, 0).Some? && sasToken.Some? ==>
              var p := FirstMarker(answer, 0).value.start;
              && r == answer[..p] + SourcesHeader + CitationLinks(CitationList(MarkerSplit(answer, 0)[1]), sasToken.value, 1)
              && forall q :: 0 <= q < p ==> !StemAt(answer, q)
  {
    var pieces := MarkerSplit(answer, 0);
    MarkerSplitFirstPieces(answer);
    if |pieces| < 2 || sasToken.None? then answer
    else
      var links := CitationLinks(CitationList(pieces[1]), sasToken.value, 1);
      RenderingDiffers(answer, FirstMarker(answer, 0).value.start, links);
      pieces[0] + SourcesHeader + links
  }

  /** Putting the header where a match starts always changes the text: `<` is not a letter `s`. */
  lemma RenderingDiffers(answer: string, p: nat, links: string)
    requires StemAt(answer, p)
    ensures answer[..p] + SourcesHeader + links != answer
  {
    var r := answer[..p] + SourcesHeader + links;
    assert r[p] == SourcesHeader[0] == '<';
  }

  /** Skipping non-word characters does not look at the text before the start. */
  lemma {:induction false} SkipNonWordShift(pre: string, s: string, q: nat)
    requires q <= |s|
    ensures SkipNonWord(pre + s, |pre| + q) == |pre| + SkipNonWord(s, q)
    decreases |s| - q
  {
    if q < |s| {
      assert (pre + s)[|pre| + q] == s[q];
      SkipNonWordShift(pre, s, q + 1);
    }
  }

  /** The stem at `|pre| + i` in `pre + s` is the stem at `i` in `s`. */
  lemma StemAtShift(pre: string, s: string, i: nat)
    ensures StemAt(pre + s, |pre| + i) == StemAt(s, i)
  {
    if i + 6 <= |s| {
      var t := pre + s;
      assert t[|pre| + i] == s[i] && t[|pre| + i + 1] == s[i + 1] && t[|pre| + i + 2] == s[i + 2];
      assert t[|pre| + i + 3] == s[i + 3] && t[|pre| + i + 4] == s[i + 4] && t[|pre| + i + 5] == s[i + 5];
    }
  }

  /** A stem that ends inside `s` is the same in `s + post`. */
  lemma StemAtPrefix(s: string, post: string, q: nat)
    requires q + 6 <= |s|
    ensures StemAt(s + post, q) == StemAt(s, q)
  {
    var t := s + post;
    assert t[q] == s[q] && t[q + 1] == s[q + 1] && t[q + 2] == s[q + 2];
    assert t[q + 3] == s[q + 3] && t[q + 4] == s[q + 4] && t[q + 5] == s[q + 5];
  }

  /** A match starting at `|pre| + i` in `pre + s` is the match starting at `i` in `s`, shifted. */
  lemma MarkerEndShift(pre: string, s: string, i: nat)
    requires i <= |s|
    ensures MarkerEnd(pre + s, |pre| + i) == match MarkerEnd(s, i)
                                             case None => None
                                             case Some(e) => Some(|pre| + e)
  {
    StemAtShift(pre, s, i);
    if StemAt(s, i) {
      var t := pre + s;
      if i + 6 < |s| {
        assert t[|pre| + i + 6] == s[i + 6];
      }
      var q1 := if i + 6 < |s| && FoldsToS(s[i + 6]) then i + 7 else i + 6;
      if q1 < |s| {
        assert t[|pre| + q1] == s[q1];
      }
      var q2 := if q1 < |s| && s[q1] == ':' then q1 + 1 else q1;
      SkipNonWordShift(pre, s, q2);
    }
  }

  /** The stem needs an `o` after its first letter, so a text without one holds no stem. */
  lemma NoStemWithoutO(s: string)
    requires 'o' !in s && 'O' !in s
    ensures forall q: nat :: !StemAt(s, q)
  {
    forall q: nat | q + 6 <= |s| ensures !StemAt(s, q) {
      assert s[q + 1] in s;
    }
  }

  /**
   No stem starts inside a text without an `o` even when a text that does
   not start with `o` follows it.
   */
  lemma NoStemBeforeWithoutO(body: string, rest: string)
    requires 'o' !in body && 'O' !in body
    requires |rest| > 0 && !Folds(rest[0], 'o', 'O')
    ensures forall q: nat :: q < |body| ==> !StemAt(body + rest, q)
  {
    var t := body + rest;
    forall q: nat | q < |body| && q + 6 <= |t| ensures !StemAt(t, q) {
      if q + 1 < |body| {
        assert t[q + 1] == body[q + 1];
        assert body[q + 1] in body;
      } else {
        assert t[q + 1] == rest[0];
      }
    }
  }

  /** The leftmost match from `from` on starts at `p` when one starts there and none starts before. */
  lemma {:induction false} FirstMarkerAt(s: string, from: nat, p: nat, e: nat)
    requires from <= p <= |s| && MarkerEnd(s, p) == Some(e)
    requires forall q: nat :: from <= q < p ==> !StemAt(s, q)
    ensures FirstMarker(s, from) == Some(Span(p, e))
    decreases p - from
  {
    if from < p {
      FirstMarkerAt(s, from + 1, p, e);
    }
  }

  /** In a marked answer the leftmost match is the marker. */
  lemma MarkedAnswerFirstMarker(body: string, marker: string, list: string)
    requires forall q: nat :: q < |body| ==> !StemAt(body + marker, q)
    requires MarkerEnd(marker + list, 0) == Some(|marker|)
    ensures FirstMarker(body + marker + list, 0) == Some(Span(|body|, |body| + |marker|))
  {
    MarkedAnswerMarkerEnd(body, marker, list);
    NoStemInBody(body, marker, list);
    FirstMarkerAt(body + marker + list, 0, |body|, |body| + |marker|);
  }

  /** A stem starting in the body ends inside the marker, so the list after it cannot create one. */
  lemma NoStemInBody(body: string, marker: string, list: string)
    requires forall q: nat :: q < |body| ==> !StemAt(body + marker, q)
    requires |marker| >= 6
    ensures forall q: nat :: q < |body| ==> !StemAt(body + marker + list, q)
  {
    forall q: nat | q < |body| ensures !StemAt(body + marker + list, q) {
      StemAtPrefix(body + marker, list, q);
    }
  }

  /** In a marked answer the marker matches where it stands. */
  lemma MarkedAnswerMarkerEnd(body: string, marker: string, list: string)
    requires MarkerEnd(marker + list, 0) == Some(|marker|)
    ensures MarkerEnd(body + marker + list, |body|) == Some(|body| + |marker|)
  {
    assert body + marker + list == body + (marker + list);
    MarkerEndShift(body, marker + list, 0);
  }

  /** In a marked answer no match starts after the marker. */
  lemma MarkedAnswerNoSecondMarker(body: string, marker: string, list: string)
    requires forall q: nat :: !StemAt(list, q)
    ensures FirstMarker(body + marker + list, |body| + |marker|).None?
  {
    var answer := body + marker + list;
    var stop := |body| + |marker|;
    forall q: nat | stop <= q <= |answer| ensures !StemAt(answer, q) {
      StemAtShift(body + marker, list, q - stop);
    }
  }

  /**
   An answer made of a body without a match, a marker, and a citation list
   without a match is rendered as the body, the header and the links of the
   list: the body keeps its trailing characters, and the marker's trailing
   non-word characters are not part of the list.
   */
  lemma AddCitationsOfMarkedAnswer(body: string, marker: string, list: string, sasToken: string)
    requires forall q: nat :: q < |body| ==> !StemAt(body + marker, q)
    requires MarkerEnd(marker + list, 0) == Some(|marker|)
    requires forall q: nat :: !StemAt(list, q)
    ensures AddCitations(body + marker + list, Some(sasToken))
         == body + SourcesHeader + CitationLinks(CitationList(list), sasToken, 1)
  {
    var answer := body + marker + list;
    MarkedAnswerFirstMarker(body, marker, list);
    MarkedAnswerNoSecondMarker(body, marker, list);
    MarkerSplitFirstPieces(answer);
    assert answer[..|body|] == body;
    assert answer[|body| + |marker|..] == list;
  }

  /** Removing the spaces of citations listed with ", " leaves them listed with ",". */
  lemma {:induction false} RemoveSpacesJoin(citations: seq<string>)
    requires |citations| >= 1
    requires forall i :: 0 <= i < |citations| ==> ' ' !in citations[i]
    ensures RemoveChar(Join(citations, KeySeparator), ' ') == Join(citations, ",")
    decreases |citations|
  {
    RemoveCharAbsent(citations[0], ' ');
    if |citations| > 1 {
      var rest := citations[1..];
      assert Join(citations, KeySeparator) == citations[0] + KeySeparator + Join(rest, KeySeparator);
      RemoveCharAppend(citations[0] + KeySeparator, Join(rest, KeySeparator), ' ');
      RemoveCharAppend(citations[0], KeySeparator, ' ');
      RemoveSpacesJoin(rest);
      assert RemoveChar(KeySeparator, ' ') == ",";
    }
  }

  /**
   Citations without spaces or commas, listed with ", " as `get_sources`
   expects, are read back as exactly those citations, in order.
   */
  lemma CitationListOfJoin(citations: seq<string>)
    requires |citations| >= 1
    requires forall i :: 0 <= i < |citations| ==> ' ' !in citations[i] && ',' !in citations[i]
    ensures CitationList(Join(citations, KeySeparator)) == citations
  {
    RemoveSpacesJoin(citations);
    SplitJoinChar(citations, ',');
  }

  /** "SOURCES: " followed by a word character is one whole match. */
  lemma SourcesMarkerEnd(list: string)
    requires |list| > 0 && IsWordChar(list[0])
    ensures MarkerEnd(SourcesMarker + list, 0) == Some(|SourcesMarker|)
  {
    var s := SourcesMarker + list;
    assert s[..9] == SourcesMarker;
    assert s[9] == list[0];
    assert SkipNonWord(s, 9) == 9;
  }

  /**
   An answer in the format `get_sources` reads, a body without a match,
   "SOURCES: " and the citations listed with ", ", is rendered as the body,
   the header and one link per citation, numbered from 1 in listing order.
   */
  lemma AddCitationsRoundTrip(body: string, citations: seq<string>, sasToken: string)
    requires forall q: nat :: q < |body| ==> !StemAt(body + SourcesMarker, q)
    requires |citations| >= 1 && |citations[0]| > 0 && IsWordChar(citations[0][0])
    requires forall i :: 0 <= i < |citations| ==> ' ' !in citations[i] && ',' !in citations[i]
    requires forall q: nat :: !StemAt(Join(citations, KeySeparator), q)
    ensures AddCitations(body + SourcesMarker + Join(citations, KeySeparator), Some(sasToken))
         == body + SourcesHeader + CitationLinks(citations, sasToken, 1)
  {
    var list := Join(citations, KeySeparator);
    assert |list| > 0 && list[0] == citations[0][0] by {
      if |citations| > 1 {
        assert list == citations[0] + (KeySeparator + Join(citations[1..], KeySeparator));
      }
    }
    SourcesMarkerEnd(list);
    AddCitationsOfMarkedAnswer(body, SourcesMarker, list, sasToken);
    CitationListOfJoin(citations);
  }

  /** The citations of the example answer, listed. */
  lemma ExampleList()
    ensures Join(["a-1", "b-2"], KeySeparator) == "a-1, b-2"
    ensures forall q: nat :: !StemAt("a-1, b-2", q)
    ensures ' ' !in "a-1" && ',' !in "a-1" && ' ' !in "b-2" && ',' !in "b-2"
  {
    NoStemWithoutO("a-1, b-2");
  }

  lemma TwoLinks(a: string, b: string, sasToken: string)
    ensures CitationLinks([a, b], sasToken, 1) == Link(a, sasToken, 1) + Link(b, sasToken, 2)
  {
    assert [a, b][1..] == [b];
    assert [b][1..] == [];
    assert CitationLinks([b], sasToken, 2) == Link(b, sasToken, 2) + "";
    assert Link(b, sasToken, 2) + "" == Link(b, sasToken, 2);
  }

  /**
   An answer in the usual shape, "The answer is X. SOURCES: a-1, b-2": the
   body keeps everything before the marker, trailing space included, and the
   two citations become links [1] and [2].
   */
  lemma AddCitationsExample()
    ensures AddCitations("The answer is X. " + "SOURCES: " + "a-1, b-2", Some("?sv=1"))
         == "The answer is X. " + SourcesHeader + (Link("a-1", "?sv=1", 1) + Link("b-2", "?sv=1", 2))
  {
    NoStemBeforeWithoutO("The answer is X. ", SourcesMarker);
    ExampleList();
    AddCitationsRoundTrip("The answer is X. ", ["a-1", "b-2"], "?sv=1");
    TwoLinks("a-1", "b-2", "?sv=1");
  }

  /** The citation segment "here" lists just "here". */
  lemma InsideWordCitationList()
    ensures CitationList("here") == ["here"]
  {
    assert ' ' !in "here" && ',' !in "here";
    RemoveCharAbsent("here", ' ');
    SplitCharAbsent("here", ',');
  }

  /**
   The pattern also matches inside a word: in "All resources here" it
   matches "sources " inside "resources", so the body is cut after "All re"
   and "here" is taken for a citation.
   */
  lemma MarkerMatchesInsideWord()
    ensures AddCitations("All re" + "sources " + "here", Some("?t")) == "All re" + SourcesHeader + Link("here", "?t", 1)
  {
    NoStemBeforeWithoutO("All re", "sources ");
    InsideWordMarkerEnd();
    NoStemWithoutO("here");
    AddCitationsOfMarkedAnswer("All re", "sources ", "here", "?t");
    InsideWordCitationList();
    assert CitationLinks(["here"], "?t", 1) == Link("here", "?t", 1) + "" by {
      assert ["here"][1..] == [];
    }
    assert Link("here", "?t", 1) + "" == Link("here", "?t", 1);
  }

  /** "sources " followed by a word is one whole match. */
  lemma InsideWordMarkerEnd()
    ensures MarkerEnd("sources " + "here", 0) == Some(8)
  {
    var s := "sources " + "here";
    assert s[..8] == "sources " && s[8] == 'h';
    assert SkipNonWord(s, 8) == 8;
  }
}
