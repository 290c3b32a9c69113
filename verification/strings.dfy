/**
 The string primitives the HDL parser is built from: substring search (Rust's
 `str::find`), deletion of spaces (`replace(" ", "")`), splitting on a
 one-character separator (`split(",")`) and its inverse, joining.
 Strings are `seq<char>`.
 */
module Strings {

  datatype Option<T> = None | Some(value: T)

  /** `pat` occurs in `s` starting at index `i`. */
  predicate OccursAt(pat: string, s: string, i: nat) {
    i + |pat| <= |s| && s[i..i + |pat|] == pat
  }

  /** `i` is the first index at which `pat` occurs in `s`. */
  predicate FirstOccurrence(pat: string, s: string, i: nat) {
    OccursAt(pat, s, i) && forall j: nat :: j < i ==> !OccursAt(pat, s, j)
  }

  /** A one-character pattern occurs exactly where that character is. */
  lemma OccursAtChar(c: char, s: string, i: nat)
    ensures OccursAt([c], s, i) <==> i < |s| && s[i] == c
  {
    if i < |s| {
      assert s[i..i + 1] == [s[i]];
    }
  }

  /** Index of the first occurrence of `pat` in `s`, or None: Rust's `str::find`. */
  function Find(pat: string, s: string): (r: Option<nat>)
    ensures r.Some? ==> OccursAt(pat, s, r.value)
    ensures r.Some? ==> forall j: nat :: j < r.value ==> !OccursAt(pat, s, j)
    ensures r.None? ==> forall j: nat :: !OccursAt(pat, s, j)
    decreases |s|
  {
    if |s| < |pat| then None
    else if pat <= s then Some(0)
    else
      assert !OccursAt(pat, s, 0) by {
        if |pat| <= |s| { assert s[0..|pat|] == s[..|pat|]; }
      }
      ShiftOccurrence(pat, s);
      match Find(pat, s[1..])
      case None => None
      case Some(k) => Some(k + 1)
  }

  /** An occurrence in `s` at `k > 0` is an occurrence in `s[1..]` at `k - 1`, and back. */
  lemma ShiftOccurrence(pat: string, s: string)
    requires |s| > 0
    ensures forall k: nat :: 0 < k ==> (OccursAt(pat, s, k) <==> OccursAt(pat, s[1..], k - 1))
  {
    forall k: nat | 0 < k
      ensures OccursAt(pat, s, k) <==> OccursAt(pat, s[1..], k - 1)
    {
      if k + |pat| <= |s| {
        assert s[1..][k - 1..k - 1 + |pat|] == s[k..k + |pat|];
      }
    }
  }

  /** The first occurrence is unique: any index that is an occurrence with no earlier one is what Find returns. */
  lemma FindIsFirst(pat: string, s: string, k: nat)
    requires OccursAt(pat, s, k)
    requires forall j: nat :: j < k ==> !OccursAt(pat, s, j)
    ensures Find(pat, s) == Some(k)
  {
  }

  /** `s` with every space deleted: Rust's `replace(" ", "")`. */
  function RemoveSpaces(s: string): (r: string)
    ensures ' ' !in r
    ensures forall c :: c != ' ' ==> multiset(r)[c] == multiset(s)[c]
    decreases |s|
  {
    if |s| == 0 then []
    else
      assert s == [s[0]] + s[1..];
      if s[0] == ' ' then RemoveSpaces(s[1..]) else [s[0]] + RemoveSpaces(s[1..])
  }

  /** Deleting spaces distributes over concatenation, so it keeps the order of the other characters. */
  lemma {:induction false} RemoveSpacesAppend(a: string, b: string)
    ensures RemoveSpaces(a + b) == RemoveSpaces(a) + RemoveSpaces(b)
    decreases |a|
  {
    if |a| == 0 {
      assert a + b == b;
    } else {
      assert (a + b)[1..] == a[1..] + b;
      RemoveSpacesAppend(a[1..], b);
    }
  }

  /** Text without spaces is left as it is, and only such text is. */
  lemma {:induction false} RemoveSpacesFixed(s: string)
    ensures RemoveSpaces(s) == s <==> ' ' !in s
    decreases |s|
  {
    if |s| > 0 {
      RemoveSpacesFixed(s[1..]);
      if s[0] == ' ' {
        assert |RemoveSpaces(s)| <= |s[1..]| by { RemoveSpacesShorter(s[1..]); }
      }
    }
  }

  lemma {:induction false} RemoveSpacesShorter(s: string)
    ensures |RemoveSpaces(s)| <= |s|
    decreases |s|
  {
    if |s| > 0 {
      RemoveSpacesShorter(s[1..]);
    }
  }

  /** `xs` glued together with `sep` between consecutive elements. */
  function Join(xs: seq<string>, sep: char): string
    decreases |xs|
  {
    if |xs| == 0 then []
    else if |xs| == 1 then xs[0]
    else xs[0] + [sep] + Join(xs[1..], sep)
  }

  /**
   The pieces of `s` between occurrences of `sep`, in order: Rust's
   `split` with a one-character pattern. Empty text yields one empty piece,
   and so does every pair of adjacent separators.
   */
  function Split(s: string, sep: char): (r: seq<string>)
    ensures |r| == multiset(s)[sep] + 1
    ensures forall i :: 0 <= i < |r| ==> sep !in r[i]
    ensures Join(r, sep) == s
    decreases |s|
  {
    match Find([sep], s)
    case None =>
      Absent(sep, s);
      [s]
    case Some(i) =>
      FirstSeparator(sep, s, i);
      CutAt(sep, s, i);
      var tail := Split(s[i + 1..], sep);
      var r := [s[..i]] + tail;
      assert r[1..] == tail;
      assert forall k :: 1 <= k < |r| ==> r[k] == tail[k - 1];
      r
  }

  /** When Find reports no `sep`, the text has none. */
  lemma Absent(sep: char, s: string)
    requires Find([sep], s).None?
    ensures sep !in s
  {
    forall i | 0 <= i < |s| ensures s[i] != sep {
      OccursAtChar(sep, s, i);
    }
  }

  /** The first `sep` found is a `sep`, and none comes before it. */
  lemma FirstSeparator(sep: char, s: string, i: nat)
    requires Find([sep], s) == Some(i)
    ensures i < |s| && s[i] == sep
    ensures sep !in s[..i]
  {
    OccursAtChar(sep, s, i);
    var head := s[..i];
    forall j | 0 <= j < i ensures head[j] != sep {
      OccursAtChar(sep, s, j);
    }
  }

  /** A separator at `i` cuts `s` into head, separator and tail. */
  lemma CutAt(sep: char, s: string, i: nat)
    requires i < |s| && s[i] == sep
    ensures s == s[..i] + [sep] + s[i + 1..]
    ensures multiset(s)[sep] == multiset(s[..i])[sep] + 1 + multiset(s[i + 1..])[sep]
  {
    var head, tail := s[..i], s[i + 1..];
    assert s == head + [sep] + tail;
    calc {
      multiset(s);
      multiset(head + [sep] + tail);
      multiset(head + [sep]) + multiset(tail);
      multiset(head) + multiset([sep]) + multiset(tail);
    }
  }

  /** A character absent from the text is absent from every piece. */
  lemma {:induction false} SplitKeepsOut(s: string, sep: char, c: char)
    requires c !in s
    ensures forall i :: 0 <= i < |Split(s, sep)| ==> c !in Split(s, sep)[i]
    decreases |s|
  {
    match Find([sep], s)
    case None =>
    case Some(i) =>
      FirstSeparator(sep, s, i);
      SplitKeepsOut(s[i + 1..], sep, c);
  }

  /** Splitting undoes joining: the pieces come back when none contains the separator. */
  lemma {:induction false} SplitJoin(xs: seq<string>, sep: char)
    requires |xs| >= 1
    requires forall i :: 0 <= i < |xs| ==> sep !in xs[i]
    ensures Split(Join(xs, sep), sep) == xs
    decreases |xs|
  {
    var s := Join(xs, sep);
    if |xs| == 1 {
      assert Find([sep], s).None? by {
        forall j: nat ensures !OccursAt([sep], s, j) {
          OccursAtChar(sep, s, j);
        }
      }
    } else {
      JoinFirstSeparator(xs, sep);
      SplitAt(s, sep, |xs[0]|);
      SplitJoin(xs[1..], sep);
      assert xs == [xs[0]] + xs[1..];
    }
  }

  /** A character that occurs is found. */
  lemma FindSome(c: char, s: string) returns (k: nat)
    requires c in s
    ensures Find([c], s) == Some(k)
  {
    var i :| 0 <= i < |s| && s[i] == c;
    OccursAtChar(c, s, i);
    k := Find([c], s).value;
  }

  /** The first piece is the text before the first separator, or all of the text when there is none. */
  lemma SplitHead(s: string, sep: char)
    ensures var h := Split(s, sep)[0];
      h <= s && sep !in h && (|h| == |s| || s[|h|] == sep)
  {
    match Find([sep], s)
    case None =>
      Absent(sep, s);
    case Some(k) =>
      SplitAt(s, sep, k);
      FirstSeparator(sep, s, k);
  }

  /** In joined pieces, the first separator is the one after the first piece. */
  lemma JoinFirstSeparator(xs: seq<string>, sep: char)
    requires |xs| >= 2 && sep !in xs[0]
    ensures var s := Join(xs, sep); var k := |xs[0]|;
      Find([sep], s) == Some(k) && k < |s| && s[..k] == xs[0] && s[k + 1..] == Join(xs[1..], sep)
  {
    var s := Join(xs, sep);
    var k := |xs[0]|;
    assert s == xs[0] + [sep] + Join(xs[1..], sep);
    OccursAtChar(sep, s, k);
    forall j: nat | j < k ensures !OccursAt([sep], s, j) {
      OccursAtChar(sep, s, j);
      assert s[j] == xs[0][j];
    }
    FindIsFirst([sep], s, k);
    assert s[..k] == xs[0];
    assert s[k + 1..] == Join(xs[1..], sep);
  }

  /** Split at the first separator found: the piece before it, then the split of the rest. */
  lemma SplitAt(s: string, sep: char, k: nat)
    requires Find([sep], s) == Some(k)
    ensures k < |s| && Split(s, sep) == [s[..k]] + Split(s[k + 1..], sep)
  {
    FirstSeparator(sep, s, k);
  }

  /** A character that is neither the separator nor in any piece is not in the joined text. */
  lemma {:induction false} JoinKeepsOut(xs: seq<string>, sep: char, c: char)
    requires c != sep
    requires forall i :: 0 <= i < |xs| ==> c !in xs[i]
    ensures c !in Join(xs, sep)
    decreases |xs|
  {
    if |xs| > 1 {
      JoinKeepsOut(xs[1..], sep, c);
    }
  }

  /** Associativity, stated apart so a caller can regroup without the sequence axioms in its own context. */
  lemma Assoc<T>(a: seq<T>, b: seq<T>, c: seq<T>)
    ensures a + b + c == a + (b + c)
  {
  }

  /** Two non-empty sequences with equal heads and equal tails are equal. */
  lemma HeadTail<T>(a: seq<T>, b: seq<T>)
    requires |a| > 0 && |b| > 0 && a[0] == b[0] && a[1..] == b[1..]
    ensures a == b
  {
    assert a == [a[0]] + a[1..];
    assert b == [b[0]] + b[1..];
  }
}
