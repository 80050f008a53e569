/**
 Python string primitives the document-search tool relies on: `str.split`
 with an explicit separator, `str.join`, `str.replace(c, "")` and `str(n)`
 for natural numbers. Strings are sequences of characters.
 */
module Strings {
  import opened Wrappers

  /** `sep` occurs in `s` starting at index `i`. */
  predicate OccursAt(s: string, sep: string, i: nat)
  {
    i + |sep| <= |s| && s[i..i + |sep|] == sep
  }

  /** Moving one character to the right in `s` is moving one index to the left in `s[1..]`. */
  lemma ShiftOccurs(s: string, sep: string, j: nat)
    requires |s| > 0
    ensures OccursAt(s, sep, j + 1) <==> OccursAt(s[1..], sep, j)
  {
    if j + 1 + |sep| <= |s| {
      assert s[1..][j..j + |sep|] == s[j + 1..j + 1 + |sep|];
    }
  }

  /** An occurrence inside the prefix `s[..n]` is an occurrence in `s` that ends by `n`. */
  lemma PrefixOccurs(s: string, sep: string, n: nat, j: nat)
    requires n <= |s|
    ensures OccursAt(s[..n], sep, j) <==> OccursAt(s, sep, j) && j + |sep| <= n
  {
    if j + |sep| <= n {
      assert s[..n][j..j + |sep|] == s[j..j + |sep|];
    }
  }

  /** Index of the leftmost occurrence of `sep` in `s` (Python's `str.find`, with `None` for -1). */
  function IndexOf(s: string, sep: string): (r: Option<nat>)
    ensures r.Some? ==> OccursAt(s, sep, r.value)
    ensures r.Some? ==> forall j: nat :: j < r.value ==> !OccursAt(s, sep, j)
    ensures r.None? ==> forall j: nat :: !OccursAt(s, sep, j)
    decreases |s|
  {
    if |s| < |sep| then None
    else if s[..|sep|] == sep then Some(0)
    else
      assert !OccursAt(s, sep, 0);
      match IndexOf(s[1..], sep)
      case None =>
        assert forall j: nat :: !OccursAt(s, sep, j) by {
          forall j: nat ensures !OccursAt(s, sep, j) {
            if j > 0 { ShiftOccurs(s, sep, j - 1); }
          }
        }
        None
      case Some(k) =>
        assert OccursAt(s, sep, k + 1) by { ShiftOccurs(s, sep, k); }
        assert forall j: nat :: j < k + 1 ==> !OccursAt(s, sep, j) by {
          forall j: nat | j < k + 1 ensures !OccursAt(s, sep, j) {
            if j > 0 { ShiftOccurs(s, sep, j - 1); }
          }
        }
        Some(k + 1)
  }

  /** A one-character separator occurs exactly where that character stands. */
  lemma CharOccursAt(s: string, c: char, j: nat)
    ensures OccursAt(s, [c], j) <==> j < |s| && s[j] == c
  {
    if j < |s| {
      assert s[j..j + 1] == [s[j]];
    }
  }

  /** The leftmost occurrence is the only index the properties of `IndexOf` allow. */
  lemma IndexOfUnique(s: string, sep: string, i: nat)
    requires OccursAt(s, sep, i)
    requires forall j: nat :: j < i ==> !OccursAt(s, sep, j)
    ensures IndexOf(s, sep) == Some(i)
  {
  }

  /** Python's `sep.join(parts)`. */
  function Join(parts: seq<string>, sep: string): string
  {
    if |parts| == 0 then ""
    else if |parts| == 1 then parts[0]
    else parts[0] + sep + Join(parts[1..], sep)
  }

  /**
   Python's `s.split(sep)` for a non-empty separator: the pieces between the
   leftmost non-overlapping occurrences of `sep`, scanning left to right.
   Splitting always yields at least one piece, joining the pieces back with
   `sep` gives `s` again, and no piece contains the separator.
   */
  function Split(s: string, sep: string): (r: seq<string>)
    requires |sep| > 0
    ensures |r| >= 1
    ensures Join(r, sep) == s
    ensures forall i: nat, j: nat :: i < |r| ==> !OccursAt(r[i], sep, j)
    decreases |s|
  {
    match IndexOf(s, sep)
    case None => [s]
    case Some(i) =>
      var head := s[..i];
      var tail := Split(s[i + |sep|..], sep);
      assert forall j: nat :: !OccursAt(head, sep, j) by {
        forall j: nat ensures !OccursAt(head, sep, j) {
          PrefixOccurs(s, sep, i, j);
        }
      }
      assert s == head + sep + s[i + |sep|..];
      [head] + tail
  }

  /** All strings of `parts`, one after another (Python's `"".join(parts)`). */
  function Concat(parts: seq<string>): string
  {
    if |parts| == 0 then "" else parts[0] + Concat(parts[1..])
  }

  lemma {:induction false} ConcatAppend(a: seq<string>, b: seq<string>)
    ensures Concat(a + b) == Concat(a) + Concat(b)
    decreases |a|
  {
    if |a| == 0 {
      assert a + b == b;
    } else {
      assert (a + b)[1..] == a[1..] + b;
      ConcatAppend(a[1..], b);
    }
  }

  /** The lengths of all strings of `parts`, added up. */
  function TotalLength(parts: seq<string>): nat
  {
    if |parts| == 0 then 0 else |parts[0]| + TotalLength(parts[1..])
  }

  /** A join is as long as its parts plus one separator between each two of them. */
  lemma {:induction false} JoinLength(parts: seq<string>, sep: string)
    requires |parts| >= 1
    ensures |Join(parts, sep)| == TotalLength(parts) + (|parts| - 1) * |sep|
    decreases |parts|
  {
    if |parts| > 1 {
      JoinLength(parts[1..], sep);
    }
  }

  /** Number of occurrences of the character `c` in `s`. */
  function CountChar(s: string, c: char): nat
  {
    if |s| == 0 then 0 else (if s[0] == c then 1 else 0) + CountChar(s[1..], c)
  }

  lemma {:induction false} CountCharAppend(a: string, b: string, c: char)
    ensures CountChar(a + b, c) == CountChar(a, c) + CountChar(b, c)
  {
    if |a| == 0 {
      assert a + b == b;
    } else {
      assert (a + b)[1..] == a[1..] + b;
      CountCharAppend(a[1..], b, c);
    }
  }

  lemma {:induction false} CountCharAbsent(s: string, c: char)
    requires forall j: nat :: !OccursAt(s, [c], j)
    ensures CountChar(s, c) == 0
  {
    if |s| > 0 {
      assert s[0..1] == [s[0]];
      assert !OccursAt(s, [c], 0);
      forall j: nat ensures !OccursAt(s[1..], [c], j) {
        ShiftOccurs(s, [c], j);
      }
      CountCharAbsent(s[1..], c);
    }
  }

  /** Splitting on a one-character separator yields one more piece than there are separators. */
  lemma {:induction false} SplitCharCount(s: string, c: char)
    ensures |Split(s, [c])| == CountChar(s, c) + 1
    decreases |s|
  {
    match IndexOf(s, [c])
    case None =>
      CountCharAbsent(s, c);
    case Some(i) =>
      var head := s[..i];
      var rest := s[i + 1..];
      assert s == head + [c] + rest;
      forall j: nat ensures !OccursAt(head, [c], j) {
        PrefixOccurs(s, [c], i, j);
      }
      CountCharAbsent(head, c);
      CountCharAppend(head + [c], rest, c);
      CountCharAppend(head, [c], c);
      SplitCharCount(rest, c);
  }

  /** Dropping a prefix of the first part of a concatenation. */
  lemma DropAppend<T>(x: seq<T>, y: seq<T>, k: nat)
    requires k <= |x|
    ensures (x + y)[k..] == x[k..] + y
  {
  }

  /** Taking a prefix of the first part of a concatenation. */
  lemma TakeAppend<T>(x: seq<T>, y: seq<T>, k: nat)
    requires k <= |x|
    ensures (x + y)[..k] == x[..k]
  {
  }

  /** Regrouping a concatenation: `head + (p + q)` is `(head + p) + q`. */
  lemma AppendRegroup<T>(whole: seq<T>, left: seq<T>, head: seq<T>, p: seq<T>, q: seq<T>)
    requires whole == head + (p + q) && left == head + p
    ensures whole == left + q
  {
  }

  /** Concatenation is associative. */
  lemma AppendAssoc<T>(a: seq<T>, b: seq<T>, c: seq<T>)
    ensures a + (b + c) == a + b + c
  {
  }

  /** Splitting at the leftmost occurrence `i` of the separator: the first piece, then the rest split. */
  lemma SplitStep(s: string, sep: string, i: nat)
    requires |sep| > 0 && IndexOf(s, sep) == Some(i)
    ensures i + |sep| <= |s|
    ensures Split(s, sep) == [s[..i]] + Split(s[i + |sep|..], sep)
  {
  }

  /** `s` ends with `sep` followed by `r`. */
  predicate EndsWithAfter(s: string, sep: string, r: string)
  {
    |r| + |sep| <= |s| && OccursAt(s, sep, |s| - |r| - |sep|) && s[|s| - |r|..] == r
  }

  /** Ending with `sep` then `r` carries over from a suffix of `s` to `s`. */
  lemma EndsWithAfterSuffix(s: string, k: nat, sep: string, r: string)
    requires k <= |s| && EndsWithAfter(s[k..], sep, r)
    ensures EndsWithAfter(s, sep, r)
  {
    var t := s[k..];
    var q := |t| - |r| - |sep|;
    assert t[q..q + |sep|] == s[k + q..k + q + |sep|];
    assert t[|t| - |r|..] == s[|s| - |r|..];
  }

  /** The last piece of a split, and of the split of what follows the first separator. */
  lemma SplitLastOfStep(s: string, sep: string, i: nat)
    requires |sep| > 0 && IndexOf(s, sep) == Some(i)
    ensures i + |sep| <= |s|
    ensures var pieces := Split(s, sep);
            var rest := Split(s[i + |sep|..], sep);
            pieces[|pieces| - 1] == rest[|rest| - 1]
  {
    SplitStep(s, sep, i);
  }

  /**
   When `sep` occurs in `s`, the last piece of `s.split(sep)` is a suffix of
   `s` that directly follows an occurrence of `sep`.
   */
  lemma {:induction false} SplitLastPiece(s: string, sep: string)
    requires |sep| > 0 && IndexOf(s, sep).Some?
    ensures var pieces := Split(s, sep);
            EndsWithAfter(s, sep, pieces[|pieces| - 1])
    decreases |s|
  {
    var i := IndexOf(s, sep).value;
    SplitLastOfStep(s, sep, i);
    var tail := s[i + |sep|..];
    var rest := Split(tail, sep);
    var r := rest[|rest| - 1];
    match IndexOf(tail, sep)
    case None =>
      assert r == tail;
      assert s[i..i + |sep|] == sep;
      assert EndsWithAfter(s, sep, r);
    case Some(_) =>
      SplitLastPiece(tail, sep);
      EndsWithAfterSuffix(s, i + |sep|, sep, r);
  }

  /**
   The leftmost separator of `a + [c] + b` is the leftmost one of `a`, or the
   added one when `a` has none.
   */
  lemma IndexOfCharAppend(a: string, b: string, c: char)
    ensures IndexOf(a + [c] + b, [c]) == match IndexOf(a, [c])
                                         case None => Some(|a|)
                                         case Some(i) => Some(i)
  {
    var s := a + [c] + b;
    assert s[..|a|] == a;
    match IndexOf(a, [c])
    case None =>
      assert OccursAt(s, [c], |a|) by { assert s[|a|..|a| + 1] == [c]; }
      forall j: nat | j < |a| ensures !OccursAt(s, [c], j) {
        PrefixOccurs(s, [c], |a|, j);
      }
      IndexOfUnique(s, [c], |a|);
    case Some(i) =>
      PrefixOccurs(s, [c], |a|, i);
      forall j: nat | j < i ensures !OccursAt(s, [c], j) {
        PrefixOccurs(s, [c], |a|, j);
      }
      IndexOfUnique(s, [c], i);
  }

  /** Without a separator in `a`, the pieces of `a + [c] + b` are `a` and the pieces of `b`. */
  lemma SplitCharAppendFirst(a: string, b: string, c: char)
    requires IndexOf(a, [c]).None?
    ensures Split(a + [c] + b, [c]) == Split(a, [c]) + Split(b, [c])
  {
    var s := a + [c] + b;
    IndexOfCharAppend(a, b, c);
    SplitStep(s, [c], |a|);
    assert s[..|a|] == a;
    assert s[|a| + 1..] == b;
  }

  /** With a first separator at `i` in `a`, the first piece of `a + [c] + b` is `a[..i]`. */
  lemma SplitCharAppendStep(a: string, b: string, c: char, i: nat)
    requires IndexOf(a, [c]) == Some(i)
    ensures i < |a|
    ensures Split(a + [c] + b, [c]) == [a[..i]] + Split(a[i + 1..] + [c] + b, [c])
  {
    var s := a + [c] + b;
    IndexOfCharAppend(a, b, c);
    SplitStep(s, [c], i);
    TakeAppend(a + [c], b, i);
    TakeAppend(a, [c], i);
    DropAppend(a + [c], b, i + 1);
    DropAppend(a, [c], i + 1);
  }

  /** With a first separator at `i` in `a`, splitting `a + [c] + b` starts like splitting `a`. */
  lemma SplitCharAppendLater(a: string, b: string, c: char, i: nat)
    requires IndexOf(a, [c]) == Some(i)
    requires Split(a[i + 1..] + [c] + b, [c]) == Split(a[i + 1..], [c]) + Split(b, [c])
    ensures Split(a + [c] + b, [c]) == Split(a, [c]) + Split(b, [c])
  {
    SplitCharAppendStep(a, b, c, i);
    SplitStep(a, [c], i);
    AppendRegroup(Split(a + [c] + b, [c]), Split(a, [c]), [a[..i]], Split(a[i + 1..], [c]), Split(b, [c]));
  }

  /**
   Splitting a text that has a one-character separator between `a` and `b`
   gives the pieces of `a` followed by the pieces of `b`.
   */
  lemma {:induction false} SplitCharAppend(a: string, b: string, c: char)
    ensures Split(a + [c] + b, [c]) == Split(a, [c]) + Split(b, [c])
    decreases |a|
  {
    match IndexOf(a, [c])
    case None =>
      SplitCharAppendFirst(a, b, c);
    case Some(i) =>
      SplitCharAppend(a[i + 1..], b, c);
      SplitCharAppendLater(a, b, c, i);
  }

  /** Python's `s.replace(c, "")` for a single character `c`. */
  function RemoveChar(s: string, c: char): (r: string)
    ensures forall i :: 0 <= i < |r| ==> r[i] != c
    ensures forall x :: x != c ==> (x in r <==> x in s)
    ensures |r| + CountChar(s, c) == |s|
  {
    if |s| == 0 then ""
    else
      assert s == [s[0]] + s[1..];
      if s[0] == c then RemoveChar(s[1..], c)
      else [s[0]] + RemoveChar(s[1..], c)
  }

  /** Removing a character the text lacks leaves the text unchanged. */
  lemma {:induction false} RemoveCharAbsent(s: string, c: char)
    requires c !in s
    ensures RemoveChar(s, c) == s
  {
    if |s| > 0 {
      assert s[0] in s;
      assert forall x :: x in s[1..] ==> x in s;
      RemoveCharAbsent(s[1..], c);
      assert s == [s[0]] + s[1..];
    }
  }

  /** Removing a character distributes over concatenation. */
  lemma {:induction false} RemoveCharAppend(a: string, b: string, c: char)
    ensures RemoveChar(a + b, c) == RemoveChar(a, c) + RemoveChar(b, c)
  {
    if |a| == 0 {
      assert a + b == b;
    } else {
      assert (a + b)[1..] == a[1..] + b;
      RemoveCharAppend(a[1..], b, c);
    }
  }

  /** Splitting a text on a character it lacks gives the text as the only piece. */
  lemma SplitCharAbsent(s: string, c: char)
    requires c !in s
    ensures Split(s, [c]) == [s]
  {
    forall j: nat ensures !OccursAt(s, [c], j) {
      CharOccursAt(s, c, j);
      if j < |s| {
        assert s[j] in s;
      }
    }
  }

  /** Splitting the join of parts that lack the one-character separator gives the parts back. */
  lemma {:induction false} SplitJoinChar(parts: seq<string>, c: char)
    requires |parts| >= 1
    requires forall i :: 0 <= i < |parts| ==> c !in parts[i]
    ensures Split(Join(parts, [c]), [c]) == parts
    decreases |parts|
  {
    SplitCharAbsent(parts[0], c);
    if |parts| > 1 {
      var rest := parts[1..];
      assert Join(parts, [c]) == parts[0] + [c] + Join(rest, [c]);
      SplitCharAppend(parts[0], Join(rest, [c]), c);
      SplitJoinChar(rest, c);
      assert parts == [parts[0]] + rest;
    }
  }

  /** The decimal digit character for `d`. */
  function Digit(d: nat): char
    requires d < 10
  {
    ['0', '1', '2', '3', '4', '5', '6', '7', '8', '9'][d]
  }

  predicate IsDigit(c: char)
  {
    '0' <= c <= '9'
  }

  /** Python's `str(n)` for a natural number: non-empty, all digits, no leading zero. */
  function DecimalString(n: nat): (r: string)
    ensures |r| >= 1
    ensures forall i :: 0 <= i < |r| ==> IsDigit(r[i])
    ensures n > 0 ==> r[0] != '0'
  {
    if n < 10 then [Digit(n)] else DecimalString(n / 10) + [Digit(n % 10)]
  }

  /** The value of a string of decimal digits. */
  function DecimalValue(s: string): nat
    requires forall i :: 0 <= i < |s| ==> IsDigit(s[i])
  {
    if |s| == 0 then 0
    else
      assert IsDigit(s[|s| - 1]);
      10 * DecimalValue(s[..|s| - 1]) + (s[|s| - 1] as int - '0' as int)
  }

  /** Reading back the decimal rendering of `n` gives `n`. */
  lemma {:induction false} DecimalRoundTrip(n: nat)
    ensures DecimalValue(DecimalString(n)) == n
  {
    if n >= 10 {
      var s := DecimalString(n);
      assert s[..|s| - 1] == DecimalString(n / 10);
      DecimalRoundTrip(n / 10);
    }
  }
}
