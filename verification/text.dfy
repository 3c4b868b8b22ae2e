/**
 The string operations the recommender and its selector rely on: lower-casing
 for the case-insensitive lookup, the leftmost search behind a one-shot split,
 removal of every occurrence of a pattern, and title-casing. Case mapping is
 restricted to ASCII letters.
 */
module Text {
  import opened Options

  predicate IsUpper(c: char) { 'A' <= c <= 'Z' }
  predicate IsLower(c: char) { 'a' <= c <= 'z' }
  predicate IsLetter(c: char) { IsUpper(c) || IsLower(c) }

  function LowerChar(c: char): char {
    if IsUpper(c) then (c as int + 32) as char else c
  }

  function UpperChar(c: char): char {
    if IsLower(c) then (c as int - 32) as char else c
  }

  /** Lower-cases every character, as the lookup does on both sides of the comparison. */
  function Lower(s: string): string {
    seq(|s|, i requires 0 <= i < |s| => LowerChar(s[i]))
  }

  /** Lower-casing twice is lower-casing once, so a lowered query finds what the original finds. */
  lemma LowerIdempotent(s: string)
    ensures Lower(Lower(s)) == Lower(s)
    ensures |Lower(s)| == |s|
  {
    forall i | 0 <= i < |s|
      ensures Lower(Lower(s))[i] == Lower(s)[i]
    {
      var c := s[i];
      if IsUpper(c) {
        assert IsLower(LowerChar(c));
      }
    }
  }

  /** Two strings differing only in the case of ASCII letters lower to the same string. */
  lemma LowerIgnoresCase(s: string, t: string)
    requires |s| == |t|
    requires forall i :: 0 <= i < |s| ==> s[i] == t[i] || UpperChar(s[i]) == t[i] || s[i] == UpperChar(t[i])
    ensures Lower(s) == Lower(t)
  {
    forall i | 0 <= i < |s|
      ensures Lower(s)[i] == Lower(t)[i]
    {
    }
  }

  predicate OccursAt(s: string, pat: string, k: int) {
    0 <= k && k + |pat| <= |s| && s[k..k + |pat|] == pat
  }

  predicate Contains(s: string, pat: string) {
    exists k | 0 <= k <= |s| :: OccursAt(s, pat, k)
  }

  /** The leftmost occurrence of pat in s at or after position i. */
  function FindFrom(s: string, pat: string, i: nat): (r: Option<nat>)
    decreases |s| - i
    ensures r.Some? ==> i <= r.value && OccursAt(s, pat, r.value)
    ensures r.Some? ==> forall k :: i <= k < r.value ==> !OccursAt(s, pat, k)
    ensures r.None? <==> forall k :: i <= k ==> !OccursAt(s, pat, k)
  {
    if i + |pat| > |s| then None
    else if s[i..i + |pat|] == pat then assert OccursAt(s, pat, i); Some(i)
    else FindFrom(s, pat, i + 1)
  }

  /** The leftmost occurrence of pat in s, as str.find and str.split locate it. */
  function FindFirst(s: string, pat: string): (r: Option<nat>)
    ensures r.Some? ==> OccursAt(s, pat, r.value) && forall k :: 0 <= k < r.value ==> !OccursAt(s, pat, k)
    ensures r.None? <==> !Contains(s, pat)
  {
    FindFrom(s, pat, 0)
  }

  /** s with every non-overlapping occurrence of pat, scanned left to right, deleted (str.replace(pat, "")). */
  function RemoveAll(s: string, pat: string): string
    decreases |s|
  {
    if |pat| == 0 || |s| < |pat| then s
    else if s[..|pat|] == pat then RemoveAll(s[|pat|..], pat)
    else [s[0]] + RemoveAll(s[1..], pat)
  }

  /** Deleting "_%" from a stem followed by "_%" gives back the stem when it has no '%'. */
  lemma {:induction false} RemoveSuffixMarker(stem: string)
    requires '%' !in stem
    ensures RemoveAll(stem + "_%", "_%") == stem
    decreases |stem|
  {
    var s := stem + "_%";
    if |stem| == 0 {
      assert s[..2] == "_%";
      assert s[2..] == [];
    } else {
      assert s[1] != '%' by {
        if |stem| == 1 { assert s[1] == '_'; } else { assert s[1] == stem[1]; }
      }
      assert s[..2] != "_%" by { assert s[..2][1] == s[1]; }
      assert s[1..] == stem[1..] + "_%";
      RemoveSuffixMarker(stem[1..]);
    }
  }

  /** Title-casing as str.title does it: a letter after a letter is lowered, any other letter raised. */
  function TitleFrom(s: string, afterLetter: bool): string
    decreases |s|
  {
    if |s| == 0 then []
    else
      var c := if afterLetter then LowerChar(s[0]) else UpperChar(s[0]);
      [c] + TitleFrom(s[1..], IsLetter(s[0]))
  }

  function Title(s: string): string {
    TitleFrom(s, false)
  }

  /** A run of lower-case letters that follows a letter is left alone. */
  lemma {:induction false} TitleKeepsLowerRun(s: string)
    requires forall k :: 0 <= k < |s| ==> IsLower(s[k])
    ensures TitleFrom(s, true) == s
    decreases |s|
  {
    if |s| > 0 {
      TitleKeepsLowerRun(s[1..]);
    }
  }

  /** A lower-case word is title-cased by raising its first letter only. */
  lemma TitleOfLowerWord(s: string)
    requires |s| > 0
    requires forall k :: 0 <= k < |s| ==> IsLower(s[k])
    ensures Title(s) == [UpperChar(s[0])] + s[1..]
    ensures IsUpper(Title(s)[0])
  {
    TitleKeepsLowerRun(s[1..]);
  }
}
