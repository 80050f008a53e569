/**
 The result ranker: search hits from several index batches are merged into a
 dictionary keyed by hit id (Python dictionaries keep the position of a key's
 first insertion and overwrite its value on re-insertion), only hits whose
 reranker score is strictly above the threshold are inserted, and the
 dictionary is then stably sorted by score, highest first.

 A dictionary in insertion order is modelled as a sequence of hits with
 pairwise distinct ids.
 */
module Ranking {
  import opened Wrappers

  /**
   One search hit as the ranker keeps it: its id, title, page chunks,
   language, first caption text, reranker score, storage name and storage
   location.
   */
  datatype Hit = Hit(id: string, title: string, pages: seq<string>, language: string,
                     caption: string, score: real, name: string, location: string)

  /** The hits of all batches, batch by batch, in the order they arrived. */
  function Flatten(batches: seq<seq<Hit>>): (r: seq<Hit>)
    ensures forall h :: h in r <==> exists b :: 0 <= b < |batches| && h in batches[b]
  {
    if |batches| == 0 then []
    else
      var rest := Flatten(batches[1..]);
      forall h | h in rest ensures exists b :: 0 <= b < |batches| && h in batches[b] {
        var b :| 0 <= b < |batches[1..]| && h in batches[1..][b];
        assert batches[b + 1] == batches[1..][b];
      }
      forall b, h | 1 <= b < |batches| && h in batches[b] ensures h in rest {
        assert batches[1..][b - 1] == batches[b];
      }
      batches[0] + rest
  }

  /** One batch flattens to itself: its hits arrive in the order the batch lists them. */
  lemma FlattenSingle(b: seq<Hit>)
    ensures Flatten([b]) == b
  {
    assert [b][1..] == [];
    assert b + [] == b;
  }

  /**
   Flattening distributes over concatenation of batch lists: the hits of
   earlier batches arrive, in full and in order, before those of later ones.
   */
  lemma {:induction false} FlattenAppend(x: seq<seq<Hit>>, y: seq<seq<Hit>>)
    ensures Flatten(x + y) == Flatten(x) + Flatten(y)
    decreases |x|
  {
    if |x| == 0 {
      assert x + y == y;
    } else {
      assert (x + y)[0] == x[0];
      assert (x + y)[1..] == x[1..] + y;
      FlattenAppend(x[1..], y);
    }
  }

  /** `h` is a hit for `id` that the threshold lets through. */
  predicate QualifiesFor(h: Hit, threshold: real, id: string)
  {
    h.id == id && h.score > threshold
  }

  /** The last hit for `id` above the threshold: the value the dictionary ends up holding. */
  function LastQualifying(hits: seq<Hit>, threshold: real, id: string): (r: Option<Hit>)
    ensures r.Some? ==> r.value in hits && QualifiesFor(r.value, threshold, id)
    ensures r.None? ==> forall k :: 0 <= k < |hits| ==> !QualifiesFor(hits[k], threshold, id)
  {
    if |hits| == 0 then None
    else
      var n := |hits| - 1;
      if QualifiesFor(hits[n], threshold, id) then Some(hits[n])
      else
        var prefix := hits[..n];
        assert forall k :: 0 <= k < n ==> prefix[k] == hits[k];
        LastQualifying(prefix, threshold, id)
  }

  /** No hit after position `k` is a hit for `id` above the threshold. */
  predicate NoneQualifyAfter(hits: seq<Hit>, k: nat, threshold: real, id: string)
  {
    forall k' :: k < k' < |hits| ==> !QualifiesFor(hits[k'], threshold, id)
  }

  /** The hit `LastQualifying` picks has no hit for the same id above the threshold after it. */
  lemma {:induction false} LastQualifyingIsLast(hits: seq<Hit>, threshold: real, id: string)
    requires LastQualifying(hits, threshold, id).Some?
    ensures exists k: nat :: k < |hits| && hits[k] == LastQualifying(hits, threshold, id).value &&
              NoneQualifyAfter(hits, k, threshold, id)
  {
    var n := |hits| - 1;
    if QualifiesFor(hits[n], threshold, id) {
      assert hits[n] == LastQualifying(hits, threshold, id).value;
      assert NoneQualifyAfter(hits, n, threshold, id);
    } else {
      var prefix := hits[..n];
      assert LastQualifying(hits, threshold, id) == LastQualifying(prefix, threshold, id);
      LastQualifyingIsLast(prefix, threshold, id);
      var k: nat :| k < |prefix| && prefix[k] == LastQualifying(prefix, threshold, id).value &&
                     NoneQualifyAfter(prefix, k, threshold, id);
      forall k' | k < k' < |hits| ensures !QualifiesFor(hits[k'], threshold, id) {
        if k' < n {
          assert prefix[k'] == hits[k'];
        }
      }
      assert hits[k] == prefix[k];
    }
  }

  /**
   Index of the first hit for `id` above the threshold, or `|hits|` when there
   is none: the position at which the dictionary first receives the key.
   */
  function FirstQualifying(hits: seq<Hit>, threshold: real, id: string): (r: nat)
    ensures r <= |hits|
    ensures r < |hits| ==> QualifiesFor(hits[r], threshold, id)
    ensures forall k :: 0 <= k < r ==> !QualifiesFor(hits[k], threshold, id)
  {
    if |hits| == 0 then 0
    else if QualifiesFor(hits[0], threshold, id) then 0
    else
      var r := FirstQualifying(hits[1..], threshold, id);
      assert forall k :: 1 <= k <= r ==> hits[1..][k - 1] == hits[k];
      1 + r
  }

  /** Appending one hit leaves the first qualifying position of an id unchanged when it already had one. */
  lemma FirstQualifyingAppend(p: seq<Hit>, h: Hit, threshold: real, id: string)
    ensures FirstQualifying(p, threshold, id) < |p| ==>
              FirstQualifying(p + [h], threshold, id) == FirstQualifying(p, threshold, id)
    ensures FirstQualifying(p, threshold, id) == |p| ==>
              FirstQualifying(p + [h], threshold, id) == if QualifiesFor(h, threshold, id) then |p| else |p| + 1
  {
    assert forall k :: 0 <= k < |p| ==> (p + [h])[k] == p[k];
    assert (p + [h])[|p|] == h;
  }

  /** Appending one hit changes the last qualifying hit of an id only when the new hit qualifies for it. */
  lemma LastQualifyingAppend(p: seq<Hit>, h: Hit, threshold: real, id: string)
    ensures LastQualifying(p + [h], threshold, id) ==
              if QualifiesFor(h, threshold, id) then Some(h) else LastQualifying(p, threshold, id)
  {
    assert (p + [h])[..|p|] == p;
  }

  /** Position of the entry with key `id` in the dictionary, if any. */
  function IndexOfId(m: seq<Hit>, id: string): (r: Option<nat>)
    ensures r.Some? ==> r.value < |m| && m[r.value].id == id
    ensures r.None? ==> forall j :: 0 <= j < |m| ==> m[j].id != id
  {
    if |m| == 0 then None
    else if m[0].id == id then Some(0)
    else match IndexOfId(m[1..], id)
      case None => None
      case Some(k) => Some(k + 1)
  }

  /**
   `content[h.id] = h`: overwrite in place when the key exists, append
   otherwise. Every key keeps its position, every other entry is kept, and
   the dictionary grows exactly when the key is new.
   */
  function Upsert(m: seq<Hit>, h: Hit): (r: seq<Hit>)
    ensures h in r
    ensures forall x :: x in r ==> x == h || x in m
    ensures |r| == if HasId(m, h.id) then |m| else |m| + 1
    ensures forall i :: 0 <= i < |m| ==> r[i].id == m[i].id
    ensures forall i :: 0 <= i < |m| && m[i].id != h.id ==> r[i] == m[i]
  {
    match IndexOfId(m, h.id)
    case None => m + [h]
    case Some(i) =>
      assert m[i := h][i] == h;
      m[i := h]
  }

  /**
   The filtering loop over all hits in arrival order, inserting only hits
   above the threshold; `MergeSpec` states what it computes.
   */
  function Merge(hits: seq<Hit>, threshold: real): seq<Hit>
  {
    if |hits| == 0 then []
    else
      var m := Merge(hits[..|hits| - 1], threshold);
      var h := hits[|hits| - 1];
      if h.score > threshold then Upsert(m, h) else m
  }

  /** Merging hits none of which scores above the threshold leaves the dictionary empty. */
  lemma {:induction false} MergeNoneQualify(hits: seq<Hit>, threshold: real)
    requires forall h :: h in hits ==> h.score <= threshold
    ensures Merge(hits, threshold) == []
    decreases |hits|
  {
    if |hits| > 0 {
      assert hits[|hits| - 1] in hits;
      MergeNoneQualify(hits[..|hits| - 1], threshold);
    }
  }

  /** No two entries share an id: the sequence is a dictionary. */
  predicate UniqueIds(s: seq<Hit>)
  {
    forall i, j :: 0 <= i < j < |s| ==> s[i].id != s[j].id
  }

  /** Each entry of `m` is the last hit for its id above the threshold. */
  predicate LastWins(hits: seq<Hit>, threshold: real, m: seq<Hit>)
  {
    forall i :: 0 <= i < |m| ==> LastQualifying(hits, threshold, m[i].id) == Some(m[i])
  }

  /** The dictionary `m` has an entry for `id`. */
  predicate HasId(m: seq<Hit>, id: string)
  {
    exists i :: 0 <= i < |m| && m[i].id == id
  }

  /** Every id with a hit above the threshold has an entry in `m`. */
  predicate Complete(hits: seq<Hit>, threshold: real, m: seq<Hit>)
  {
    forall k :: 0 <= k < |hits| && hits[k].score > threshold ==> HasId(m, hits[k].id)
  }

  /** The entries of `m` stand in the order of their ids' first hits above the threshold. */
  predicate FirstInsertionOrder(hits: seq<Hit>, threshold: real, m: seq<Hit>)
  {
    forall i, j :: 0 <= i < j < |m| ==>
      FirstQualifying(hits, threshold, m[i].id) < FirstQualifying(hits, threshold, m[j].id)
  }

  /**
   The merged dictionary holds, for every id that has a hit above the
   threshold anywhere in the input, exactly one entry: the LAST such hit
   (later writes win, and a later hit below the threshold removes nothing).
   Entries stand in the order of each id's FIRST hit above the threshold,
   which is also why no id appears twice.
   */
  lemma {:induction false} MergeSpec(hits: seq<Hit>, threshold: real)
    ensures LastWins(hits, threshold, Merge(hits, threshold))
    ensures Complete(hits, threshold, Merge(hits, threshold))
    ensures FirstInsertionOrder(hits, threshold, Merge(hits, threshold))
    ensures UniqueIds(Merge(hits, threshold))
    decreases |hits|
  {
    if |hits| > 0 {
      var n := |hits| - 1;
      var p := hits[..n];
      var h := hits[n];
      var m := Merge(p, threshold);
      MergeSpec(p, threshold);
      assert hits == p + [h];
      HeldIdsKeepFirst(p, h, threshold, m);
      if h.score <= threshold {
        MergeSkip(p, h, threshold, m);
      } else {
        match IndexOfId(m, h.id)
        case None =>
          NewIdFirstAtEnd(p, h, threshold, m);
          MergeAppend(p, h, threshold, m);
        case Some(x) =>
          MergeOverwrite(p, h, threshold, m, x);
      }
    }
  }

  /** Every id held by the dictionary has a qualifying hit in `p`, so appending a hit does not move its first position. */
  lemma HeldIdsKeepFirst(p: seq<Hit>, h: Hit, threshold: real, m: seq<Hit>)
    requires LastWins(p, threshold, m)
    ensures forall i :: 0 <= i < |m| ==>
              FirstQualifying(p + [h], threshold, m[i].id) == FirstQualifying(p, threshold, m[i].id) < |p|
  {
    forall i | 0 <= i < |m|
      ensures FirstQualifying(p + [h], threshold, m[i].id) == FirstQualifying(p, threshold, m[i].id) < |p|
    {
      assert LastQualifying(p, threshold, m[i].id) == Some(m[i]);
      var k :| 0 <= k < |p| && p[k] == m[i];
      assert QualifiesFor(p[k], threshold, m[i].id);
      FirstQualifyingAppend(p, h, threshold, m[i].id);
    }
  }

  /** A qualifying hit whose id the complete dictionary lacks is that id's first qualifying hit. */
  lemma NewIdFirstAtEnd(p: seq<Hit>, h: Hit, threshold: real, m: seq<Hit>)
    requires h.score > threshold && IndexOfId(m, h.id).None?
    requires Complete(p, threshold, m)
    ensures FirstQualifying(p + [h], threshold, h.id) == |p|
  {
    assert forall k :: 0 <= k < |p| ==> !QualifiesFor(p[k], threshold, h.id);
    FirstQualifyingAppend(p, h, threshold, h.id);
  }

  /** Step of `MergeSpec` for a hit at or below the threshold: nothing changes. */
  lemma MergeSkip(p: seq<Hit>, h: Hit, threshold: real, m: seq<Hit>)
    requires h.score <= threshold
    requires LastWins(p, threshold, m) && Complete(p, threshold, m) && UniqueIds(m)
    requires forall i :: 0 <= i < |m| ==>
               FirstQualifying(p + [h], threshold, m[i].id) == FirstQualifying(p, threshold, m[i].id)
    requires FirstInsertionOrder(p, threshold, m)
    ensures LastWins(p + [h], threshold, m) && Complete(p + [h], threshold, m)
    ensures FirstInsertionOrder(p + [h], threshold, m)
  {
    forall i | 0 <= i < |m| ensures LastQualifying(p + [h], threshold, m[i].id) == Some(m[i]) {
      LastQualifyingAppend(p, h, threshold, m[i].id);
    }
    assert forall k :: 0 <= k < |p| ==> (p + [h])[k] == p[k];
  }

  /** Step of `MergeSpec` for a qualifying hit with a new id: it is appended. */
  lemma MergeAppend(p: seq<Hit>, h: Hit, threshold: real, m: seq<Hit>)
    requires h.score > threshold && IndexOfId(m, h.id).None?
    requires LastWins(p, threshold, m) && Complete(p, threshold, m) && UniqueIds(m)
    requires forall i :: 0 <= i < |m| ==>
               FirstQualifying(p + [h], threshold, m[i].id) == FirstQualifying(p, threshold, m[i].id) < |p|
    requires FirstQualifying(p + [h], threshold, h.id) == |p|
    requires FirstInsertionOrder(p, threshold, m)
    ensures LastWins(p + [h], threshold, m + [h]) && Complete(p + [h], threshold, m + [h])
    ensures FirstInsertionOrder(p + [h], threshold, m + [h]) && UniqueIds(m + [h])
  {
    AppendLastWins(p, h, threshold, m);
    AppendComplete(p, h, threshold, m);
    AppendOrder(p, h, threshold, m);
  }

  lemma AppendLastWins(p: seq<Hit>, h: Hit, threshold: real, m: seq<Hit>)
    requires h.score > threshold && IndexOfId(m, h.id).None?
    requires LastWins(p, threshold, m)
    ensures LastWins(p + [h], threshold, m + [h])
  {
    var r := m + [h];
    forall i | 0 <= i < |r| ensures LastQualifying(p + [h], threshold, r[i].id) == Some(r[i]) {
      LastQualifyingAppend(p, h, threshold, r[i].id);
    }
  }

  lemma AppendComplete(p: seq<Hit>, h: Hit, threshold: real, m: seq<Hit>)
    requires Complete(p, threshold, m)
    ensures Complete(p + [h], threshold, m + [h])
  {
    var r := m + [h];
    forall k | 0 <= k < |p + [h]| && (p + [h])[k].score > threshold
      ensures exists i :: 0 <= i < |r| && r[i].id == (p + [h])[k].id
    {
      if k == |p| {
        assert r[|m|].id == (p + [h])[k].id;
      } else {
        assert (p + [h])[k] == p[k];
        var i :| 0 <= i < |m| && m[i].id == p[k].id;
        assert r[i].id == (p + [h])[k].id;
      }
    }
  }

  lemma AppendOrder(p: seq<Hit>, h: Hit, threshold: real, m: seq<Hit>)
    requires forall i :: 0 <= i < |m| ==>
               FirstQualifying(p + [h], threshold, m[i].id) == FirstQualifying(p, threshold, m[i].id) < |p|
    requires FirstQualifying(p + [h], threshold, h.id) == |p|
    requires FirstInsertionOrder(p, threshold, m)
    ensures FirstInsertionOrder(p + [h], threshold, m + [h]) && UniqueIds(m + [h])
  {
    var r := m + [h];
    forall i, j | 0 <= i < j < |r|
      ensures FirstQualifying(p + [h], threshold, r[i].id) < FirstQualifying(p + [h], threshold, r[j].id)
    {
      assert r[i] == m[i];
      if j < |m| {
        assert r[j] == m[j];
      }
    }
  }

  /** Step of `MergeSpec` for a qualifying hit whose id is present: its value is overwritten in place. */
  lemma MergeOverwrite(p: seq<Hit>, h: Hit, threshold: real, m: seq<Hit>, x: nat)
    requires h.score > threshold && IndexOfId(m, h.id) == Some(x)
    requires LastWins(p, threshold, m) && Complete(p, threshold, m) && UniqueIds(m)
    requires forall i :: 0 <= i < |m| ==>
               FirstQualifying(p + [h], threshold, m[i].id) == FirstQualifying(p, threshold, m[i].id)
    requires FirstInsertionOrder(p, threshold, m)
    ensures x < |m|
    ensures LastWins(p + [h], threshold, m[x := h]) && Complete(p + [h], threshold, m[x := h])
    ensures FirstInsertionOrder(p + [h], threshold, m[x := h]) && UniqueIds(m[x := h])
  {
    OverwriteLastWins(p, h, threshold, m, x);
    OverwriteComplete(p, h, threshold, m, x);
    OverwriteOrder(p, h, threshold, m, x);
  }

  lemma OverwriteOrder(p: seq<Hit>, h: Hit, threshold: real, m: seq<Hit>, x: nat)
    requires IndexOfId(m, h.id) == Some(x)
    requires UniqueIds(m)
    requires forall i :: 0 <= i < |m| ==>
               FirstQualifying(p + [h], threshold, m[i].id) == FirstQualifying(p, threshold, m[i].id)
    requires FirstInsertionOrder(p, threshold, m)
    ensures x < |m| && FirstInsertionOrder(p + [h], threshold, m[x := h]) && UniqueIds(m[x := h])
  {
    var r := m[x := h];
    assert forall i :: 0 <= i < |m| ==> r[i].id == m[i].id;
    forall i, j | 0 <= i < j < |r|
      ensures FirstQualifying(p + [h], threshold, r[i].id) < FirstQualifying(p + [h], threshold, r[j].id)
    {
      assert r[i].id == m[i].id && r[j].id == m[j].id;
    }
  }

  lemma OverwriteLastWins(p: seq<Hit>, h: Hit, threshold: real, m: seq<Hit>, x: nat)
    requires h.score > threshold && IndexOfId(m, h.id) == Some(x)
    requires LastWins(p, threshold, m) && UniqueIds(m)
    ensures x < |m| && LastWins(p + [h], threshold, m[x := h])
  {
    var r := m[x := h];
    forall i | 0 <= i < |r| ensures LastQualifying(p + [h], threshold, r[i].id) == Some(r[i]) {
      LastQualifyingAppend(p, h, threshold, r[i].id);
      if i != x {
        assert r[i] == m[i];
      }
    }
  }

  lemma OverwriteComplete(p: seq<Hit>, h: Hit, threshold: real, m: seq<Hit>, x: nat)
    requires h.score > threshold && IndexOfId(m, h.id) == Some(x)
    requires Complete(p, threshold, m)
    ensures x < |m| && Complete(p + [h], threshold, m[x := h])
  {
    var r := m[x := h];
    var ps := p + [h];
    forall k | 0 <= k < |ps| && ps[k].score > threshold ensures HasId(r, ps[k].id) {
      if k < |p| {
        assert ps[k] == p[k];
        OverwriteKeepsIds(m, x, h, p[k].id);
      } else {
        assert r[x].id == ps[k].id;
      }
    }
  }

  /** Overwriting an entry with a value of the same id keeps every id of the dictionary. */
  lemma OverwriteKeepsIds(m: seq<Hit>, x: nat, h: Hit, id: string)
    requires x < |m| && m[x].id == h.id && HasId(m, id)
    ensures HasId(m[x := h], id)
  {
    var i :| 0 <= i < |m| && m[i].id == id;
    assert m[x := h][i].id == id;
  }

  /** Every element is at least as high as every later one: the scores never increase. */
  predicate SortedByScore(s: seq<Hit>)
  {
    forall i, j :: 0 <= i < j < |s| ==> s[i].score >= s[j].score
  }

  /**
   Insert `x` into a list sorted by descending score, in front of the first
   element whose score does not exceed that of `x`.
   */
  function InsertByScore(x: Hit, t: seq<Hit>): (r: seq<Hit>)
    ensures multiset(r) == multiset(t) + multiset{x}
  {
    if |t| == 0 || x.score >= t[0].score then [x] + t
    else
      assert t == [t[0]] + t[1..];
      [t[0]] + InsertByScore(x, t[1..])
  }

  /** The elements of the tail of a list are the elements after its head. */
  lemma TailMembers(t: seq<Hit>, y: Hit)
    requires |t| > 0 && y in t[1..]
    ensures exists k :: 1 <= k < |t| && t[k] == y
  {
    var k :| 0 <= k < |t[1..]| && t[1..][k] == y;
    assert t[k + 1] == y;
  }

  /** Inserting adds `x` and keeps every element of `t`, and nothing else. */
  lemma InsertMembers(x: Hit, t: seq<Hit>)
    ensures forall y :: y in InsertByScore(x, t) <==> y == x || y in t
  {
    var r := InsertByScore(x, t);
    forall y ensures y in r <==> y == x || y in t {
      assert y in r <==> y in multiset(r);
      assert y in t <==> y in multiset(t);
    }
  }

  /** In a list in descending score order the head scores at least as high as the rest. */
  lemma SortedHead(t: seq<Hit>)
    requires |t| > 0 && SortedByScore(t)
    ensures SortedByScore(t[1..])
    ensures forall y :: y in t[1..] ==> t[0].score >= y.score
  {
    forall y | y in t[1..] ensures t[0].score >= y.score {
      TailMembers(t, y);
    }
  }

  /** Putting an element in front of a sorted list that it tops keeps the list sorted. */
  lemma ConsSorted(hd: Hit, rest: seq<Hit>)
    requires SortedByScore(rest)
    requires forall y :: y in rest ==> hd.score >= y.score
    ensures SortedByScore([hd] + rest)
  {
    var r := [hd] + rest;
    forall i, j | 0 <= i < j < |r| ensures r[i].score >= r[j].score {
      assert r[j] == rest[j - 1];
      if i > 0 {
        assert r[i] == rest[i - 1];
      }
    }
  }

  /** Inserting into a list in descending score order keeps it in that order. */
  lemma {:induction false} InsertKeepsSorted(x: Hit, t: seq<Hit>)
    requires SortedByScore(t)
    ensures SortedByScore(InsertByScore(x, t))
    decreases |t|
  {
    if |t| > 0 && x.score < t[0].score {
      SortedHead(t);
      InsertKeepsSorted(x, t[1..]);
      InsertMembers(x, t[1..]);
      ConsSorted(t[0], InsertByScore(x, t[1..]));
    } else {
      ConsSorted(x, t);
      if |t| > 0 {
        SortedHead(t);
      }
    }
  }

  /**
   Python's `sorted(content, key=score, reverse=True)`: an insertion sort,
   giving the elements of `s` in descending score order.
   */
  function SortByScore(s: seq<Hit>): (r: seq<Hit>)
    ensures multiset(r) == multiset(s)
    ensures SortedByScore(r)
  {
    if |s| == 0 then []
    else
      assert s == [s[0]] + s[1..];
      var rest := SortByScore(s[1..]);
      InsertKeepsSorted(s[0], rest);
      InsertByScore(s[0], rest)
  }

  /** Elements with equal scores stand in increasing `key` order. */
  predicate TiesOrderedBy(s: seq<Hit>, key: Hit -> int)
  {
    forall i, j :: 0 <= i < j < |s| && s[i].score == s[j].score ==> key(s[i]) < key(s[j])
  }

  /** Sorting keeps exactly the elements of the input. */
  lemma SortMembers(s: seq<Hit>)
    ensures forall y :: y in SortByScore(s) <==> y in s
  {
    var r := SortByScore(s);
    forall y ensures y in r <==> y in s {
      assert y in r <==> y in multiset(r);
      assert y in s <==> y in multiset(s);
    }
  }

  /** In a list whose ties are ordered by `key`, the head comes before its ties in the rest. */
  lemma TiesHead(t: seq<Hit>, key: Hit -> int)
    requires |t| > 0 && TiesOrderedBy(t, key)
    ensures TiesOrderedBy(t[1..], key)
    ensures forall y :: y in t[1..] && y.score == t[0].score ==> key(t[0]) < key(y)
  {
    forall y | y in t[1..] && y.score == t[0].score ensures key(t[0]) < key(y) {
      TailMembers(t, y);
    }
  }

  /** Putting an element in front of its ties keeps ties ordered. */
  lemma ConsTies(hd: Hit, rest: seq<Hit>, key: Hit -> int)
    requires TiesOrderedBy(rest, key)
    requires forall y :: y in rest && y.score == hd.score ==> key(hd) < key(y)
    ensures TiesOrderedBy([hd] + rest, key)
  {
    var r := [hd] + rest;
    forall i, j | 0 <= i < j < |r| && r[i].score == r[j].score ensures key(r[i]) < key(r[j]) {
      assert r[j] == rest[j - 1];
      if i > 0 {
        assert r[i] == rest[i - 1];
      }
    }
  }

  lemma {:induction false} InsertKeepsTies(x: Hit, t: seq<Hit>, key: Hit -> int)
    requires TiesOrderedBy(t, key)
    requires forall y :: y in t && y.score == x.score ==> key(x) < key(y)
    ensures TiesOrderedBy(InsertByScore(x, t), key)
    decreases |t|
  {
    if |t| > 0 && x.score < t[0].score {
      TiesHead(t, key);
      InsertKeepsTies(x, t[1..], key);
      InsertMembers(x, t[1..]);
      ConsTies(t[0], InsertByScore(x, t[1..]), key);
    } else {
      ConsTies(x, t, key);
    }
  }

  /** The sort is stable: ties keep any order the input had them in. */
  lemma {:induction false} SortKeepsTies(s: seq<Hit>, key: Hit -> int)
    requires TiesOrderedBy(s, key)
    ensures TiesOrderedBy(SortByScore(s), key)
  {
    if |s| > 0 {
      TiesHead(s, key);
      SortKeepsTies(s[1..], key);
      SortMembers(s[1..]);
      InsertKeepsTies(s[0], SortByScore(s[1..]), key);
    }
  }

  /** In a dictionary the head's id is not the id of any later entry. */
  lemma UniqueHead(t: seq<Hit>)
    requires |t| > 0 && UniqueIds(t)
    ensures UniqueIds(t[1..])
    ensures forall y :: y in t[1..] ==> y.id != t[0].id
  {
    forall y | y in t[1..] ensures y.id != t[0].id {
      TailMembers(t, y);
    }
  }

  /** Putting an entry with a new id in front of a dictionary keeps it a dictionary. */
  lemma ConsUnique(hd: Hit, rest: seq<Hit>)
    requires UniqueIds(rest)
    requires forall y :: y in rest ==> y.id != hd.id
    ensures UniqueIds([hd] + rest)
  {
    var r := [hd] + rest;
    forall i, j | 0 <= i < j < |r| ensures r[i].id != r[j].id {
      assert r[j] == rest[j - 1];
      if i > 0 {
        assert r[i] == rest[i - 1];
      }
    }
  }

  lemma {:induction false} InsertKeepsUniqueIds(x: Hit, t: seq<Hit>)
    requires UniqueIds(t)
    requires forall y :: y in t ==> y.id != x.id
    ensures UniqueIds(InsertByScore(x, t))
    decreases |t|
  {
    if |t| > 0 && x.score < t[0].score {
      UniqueHead(t);
      InsertKeepsUniqueIds(x, t[1..]);
      InsertMembers(x, t[1..]);
      ConsUnique(t[0], InsertByScore(x, t[1..]));
    } else {
      ConsUnique(x, t);
    }
  }

  /** Sorting a dictionary yields a dictionary: ids stay distinct. */
  lemma {:induction false} SortKeepsUniqueIds(s: seq<Hit>)
    requires UniqueIds(s)
    ensures UniqueIds(SortByScore(s))
  {
    if |s| > 0 {
      UniqueHead(s);
      SortKeepsUniqueIds(s[1..]);
      SortMembers(s[1..]);
      InsertKeepsUniqueIds(s[0], SortByScore(s[1..]));
    }
  }

  /** A list already in descending score order is returned unchanged by the sort. */
  lemma {:induction false} SortOfSorted(s: seq<Hit>)
    requires SortedByScore(s)
    ensures SortByScore(s) == s
  {
    if |s| > 0 {
      assert SortedByScore(s[1..]);
      SortOfSorted(s[1..]);
      assert s == [s[0]] + s[1..];
    }
  }

  /** Every entry scores above the threshold. */
  predicate AllAbove(m: seq<Hit>, threshold: real)
  {
    forall i :: 0 <= i < |m| ==> m[i].score > threshold
  }

  /**
   Dropping the last entry of a dictionary whose entries pass the threshold
   leaves such a dictionary, one that lacks the dropped entry's id.
   */
  lemma DictionaryPrefix(m: seq<Hit>, threshold: real)
    requires |m| > 0 && UniqueIds(m) && AllAbove(m, threshold)
    ensures UniqueIds(m[..|m| - 1]) && AllAbove(m[..|m| - 1], threshold)
    ensures IndexOfId(m[..|m| - 1], m[|m| - 1].id).None?
    ensures m == m[..|m| - 1] + [m[|m| - 1]]
  {
    var p := m[..|m| - 1];
    assert forall i :: 0 <= i < |p| ==> p[i] == m[i];
  }

  /** Merging a dictionary whose entries all pass the threshold rebuilds it unchanged. */
  lemma {:induction false} MergeOfDictionary(m: seq<Hit>, threshold: real)
    requires UniqueIds(m) && AllAbove(m, threshold)
    ensures Merge(m, threshold) == m
    decreases |m|
  {
    if |m| > 0 {
      var p := m[..|m| - 1];
      DictionaryPrefix(m, threshold);
      MergeOfDictionary(p, threshold);
      MergeAppendNew(p, m[|m| - 1], threshold);
    }
  }

  /** A hit above the threshold with an id the merge of `p` lacks is appended to it. */
  lemma MergeAppendNew(p: seq<Hit>, h: Hit, threshold: real)
    requires h.score > threshold && IndexOfId(Merge(p, threshold), h.id).None?
    ensures Merge(p + [h], threshold) == Merge(p, threshold) + [h]
  {
    assert (p + [h])[..|p|] == p;
  }

  /** Every merged entry is a hit of the input above the threshold, and ids are distinct. */
  lemma MergeEntries(hits: seq<Hit>, threshold: real)
    ensures forall i :: 0 <= i < |Merge(hits, threshold)| ==>
              Merge(hits, threshold)[i].score > threshold && Merge(hits, threshold)[i] in hits
    ensures UniqueIds(Merge(hits, threshold))
  {
    MergeSpec(hits, threshold);
  }

  /**
   `order_search_results`: the hits of all batches above the threshold,
   merged by id and ordered by descending score.
   */
  function OrderSearchResults(batches: seq<seq<Hit>>, threshold: real): (r: seq<Hit>)
    ensures forall i :: 0 <= i < |r| ==> r[i].score > threshold
    ensures forall i :: 0 <= i < |r| ==> exists b :: 0 <= b < |batches| && r[i] in batches[b]
    ensures SortedByScore(r)
    ensures UniqueIds(r)
  {
    var hits := Flatten(batches);
    var merged := Merge(hits, threshold);
    MergeEntries(hits, threshold);
    SortKeepsUniqueIds(merged);
    var r := SortByScore(merged);
    forall i | 0 <= i < |r| ensures r[i].score > threshold && r[i] in hits {
      assert r[i] in multiset(r);
    }
    r
  }

  /** Sorting keeps every id of a dictionary. */
  lemma SortKeepsIds(s: seq<Hit>, id: string)
    requires HasId(s, id)
    ensures HasId(SortByScore(s), id)
  {
    var i :| 0 <= i < |s| && s[i].id == id;
    SortMembers(s);
    assert s[i] in SortByScore(s);
  }

  /** Every id with a hit above the threshold in some batch has an entry in the result. */
  lemma OrderSearchResultsComplete(batches: seq<seq<Hit>>, threshold: real)
    ensures forall b, h :: 0 <= b < |batches| && h in batches[b] && h.score > threshold ==>
              HasId(OrderSearchResults(batches, threshold), h.id)
  {
    var hits := Flatten(batches);
    var merged := Merge(hits, threshold);
    MergeSpec(hits, threshold);
    forall b, h | 0 <= b < |batches| && h in batches[b] && h.score > threshold
      ensures HasId(OrderSearchResults(batches, threshold), h.id)
    {
      assert h in hits;
      var k :| 0 <= k < |hits| && hits[k] == h;
      assert HasId(merged, hits[k].id);
      SortKeepsIds(merged, h.id);
    }
  }

  /** The entry the result holds for an id is the last hit for it above the threshold, in arrival order. */
  lemma OrderSearchResultsLastWins(batches: seq<seq<Hit>>, threshold: real)
    ensures forall i :: 0 <= i < |OrderSearchResults(batches, threshold)| ==>
              LastQualifying(Flatten(batches), threshold, OrderSearchResults(batches, threshold)[i].id)
                == Some(OrderSearchResults(batches, threshold)[i])
  {
    var hits := Flatten(batches);
    var merged := Merge(hits, threshold);
    var r := OrderSearchResults(batches, threshold);
    MergeSpec(hits, threshold);
    SortMembers(merged);
    forall i | 0 <= i < |r| ensures LastQualifying(hits, threshold, r[i].id) == Some(r[i]) {
      assert r[i] in merged;
      var j :| 0 <= j < |merged| && merged[j] == r[i];
      assert LastQualifying(hits, threshold, merged[j].id) == Some(merged[j]);
    }
  }

  /**
   Entries with equal scores keep the order in which their ids first
   appeared above the threshold: the sort is stable over the dictionary's
   insertion order.
   */
  lemma OrderSearchResultsStable(batches: seq<seq<Hit>>, threshold: real)
    ensures var r := OrderSearchResults(batches, threshold);
            forall i, j :: 0 <= i < j < |r| && r[i].score == r[j].score ==>
              FirstQualifying(Flatten(batches), threshold, r[i].id) <
              FirstQualifying(Flatten(batches), threshold, r[j].id)
  {
    var hits := Flatten(batches);
    var merged := Merge(hits, threshold);
    MergeSpec(hits, threshold);
    var key := (h: Hit) => FirstQualifying(hits, threshold, h.id);
    assert TiesOrderedBy(merged, key);
    SortKeepsTies(merged, key);
  }

  /** Ranking a ranked result again, as one batch with the same threshold, changes nothing. */
  lemma OrderSearchResultsIdempotent(batches: seq<seq<Hit>>, threshold: real)
    ensures OrderSearchResults([OrderSearchResults(batches, threshold)], threshold)
              == OrderSearchResults(batches, threshold)
  {
    var r := OrderSearchResults(batches, threshold);
    assert Flatten([r]) == r by {
      assert [r][1..] == [];
      assert r + [] == r;
    }
    MergeOfDictionary(r, threshold);
    SortOfSorted(r);
  }

  /** When no hit of any batch scores above the threshold, the ranking is empty. */
  lemma NoQualifyingHitsRankEmpty(batches: seq<seq<Hit>>, threshold: real)
    requires forall b, h :: 0 <= b < |batches| && h in batches[b] ==> h.score <= threshold
    ensures OrderSearchResults(batches, threshold) == []
  {
    MergeNoneQualify(Flatten(batches), threshold);
  }
}
