/**
 The two parser-combinator primitives the HDL parser uses, over complete
 input: `tag` (match a literal prefix) and `take_until` (take the text before
 the first occurrence of a pattern). A parser either fails or returns the
 remaining input together with the value it recognised.
 */
module Combinators {
  import opened Strings

  /** The outcome of a parser: one opaque failure, or the unconsumed text and a value. */
  datatype IResult<T> = Error | Ok(rest: string, value: T)

  /** `r` is a suffix of `s`: what is left after consuming some prefix of `s`. */
  predicate IsSuffix(r: string, s: string) {
    |r| <= |s| && s[|s| - |r|..] == r
  }

  lemma SuffixTransitive(a: string, b: string, c: string)
    requires IsSuffix(a, b) && IsSuffix(b, c)
    ensures IsSuffix(a, c)
  {
    assert c[|c| - |a|..] == c[|c| - |b|..][|b| - |a|..];
  }

  /** Recognise the literal `t` at the start of `s`. */
  function Tag(t: string, s: string): (r: IResult<string>)
    ensures r.Ok? <==> t <= s
    ensures r.Ok? ==> r.value == t && r.rest == s[|t|..]
  {
    if t <= s then Ok(s[|t|..], t) else Error
  }

  /**
   Take the text before the first occurrence of `pat`; the occurrence itself
   stays in the remaining input. Fails when `pat` does not occur.
   */
  function TakeUntil(pat: string, s: string): (r: IResult<string>)
    ensures r.Ok? ==> |r.value| <= |s| && r.value == s[..|r.value|] && r.rest == s[|r.value|..]
    ensures r.Ok? ==> pat <= r.rest
  {
    match Find(pat, s)
    case None => Error
    case Some(i) =>
      assert s[i..][..|pat|] == s[i..i + |pat|];
      Ok(s[i..], s[..i])
  }

  lemma TakeUntilSuffix(pat: string, s: string)
    requires TakeUntil(pat, s).Ok?
    ensures IsSuffix(TakeUntil(pat, s).rest, s)
  {
  }

  /** TakeUntil succeeds exactly when `pat` occurs, and stops at its first occurrence. */
  lemma TakeUntilFirst(pat: string, s: string)
    ensures TakeUntil(pat, s).Ok? <==> exists i: nat :: OccursAt(pat, s, i)
    ensures TakeUntil(pat, s).Ok? ==>
              forall j: nat :: j < |TakeUntil(pat, s).value| ==> !OccursAt(pat, s, j)
  {
  }

  /** The value TakeUntil returns ends at the first occurrence of `pat`, where the rest begins. */
  lemma TakeUntilAt(pat: string, s: string)
    requires TakeUntil(pat, s).Ok?
    ensures FirstOccurrence(pat, s, |TakeUntil(pat, s).value|)
    ensures s[|TakeUntil(pat, s).value|..] == TakeUntil(pat, s).rest
  {
  }

  /** At the first occurrence of `pat`, TakeUntil splits the text. */
  lemma TakeUntilOfFirst(pat: string, s: string, i: nat)
    requires FirstOccurrence(pat, s, i)
    ensures TakeUntil(pat, s) == Ok(s[i..], s[..i])
  {
    FindIsFirst(pat, s, i);
  }

  /** For a one-character pattern: the value is the text before the first `c`, and the rest starts at it. */
  lemma TakeUntilChar(c: char, s: string)
    ensures TakeUntil([c], s).Ok? <==> c in s
    ensures TakeUntil([c], s).Ok? ==>
              c !in TakeUntil([c], s).value && |TakeUntil([c], s).rest| > 0 && TakeUntil([c], s).rest[0] == c
  {
    var r := TakeUntil([c], s);
    TakeUntilFirst([c], s);
    if c in s {
      var i :| 0 <= i < |s| && s[i] == c;
      OccursAtChar(c, s, i);
    } else {
      forall i: nat ensures !OccursAt([c], s, i) {
        OccursAtChar(c, s, i);
      }
    }
    if r.Ok? {
      forall j | 0 <= j < |r.value| ensures r.value[j] != c {
        OccursAtChar(c, s, j);
        assert s[j] == r.value[j];
      }
    }
  }

  /** Tag recognises a literal placed in front of any text, and returns that text. */
  lemma TagOf(t: string, b: string)
    ensures Tag(t, t + b) == Ok(b, t)
  {
    assert (t + b)[|t|..] == b;
  }

  /**
   TakeUntil stops where `pat` is placed, when the text in front of it cannot
   start an occurrence (it lacks the first character of `pat`).
   */
  lemma TakeUntilAfter(pat: string, a: string, b: string)
    requires |pat| > 0 && pat <= b && pat[0] !in a
    ensures TakeUntil(pat, a + b) == Ok(b, a)
  {
    var s := a + b;
    assert s[|a|..|a| + |pat|] == b[..|pat|];
    forall j: nat | j < |a| ensures !OccursAt(pat, s, j) {
      assert s[j] == a[j];
      assert j + |pat| <= |s| ==> s[j..j + |pat|][0] == s[j];
    }
    FindIsFirst(pat, s, |a|);
    assert s[..|a|] == a && s[|a|..] == b;
  }
}
