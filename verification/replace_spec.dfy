/** An independent reading of `s.replace(pat, '')`: the characters of s
    that lie inside no occurrence of pat, in order.  For a pattern that
    cannot overlap itself (`.pdf` and `.docx` cannot), the left-to-right
    scanner RemoveAll deletes exactly those characters. */
module ReplaceSpec {
  import opened PythonStr

  /** Position j of s lies inside some occurrence of pat. */
  ghost predicate Covered(s: string, pat: string, j: int)
  {
    exists i :: 0 <= i && i + |pat| <= |s| && i <= j < i + |pat| && OccursAt(s, pat, i)
  }

  /** The characters of s[k..] that lie inside no occurrence of pat. */
  ghost function Uncovered(s: string, pat: string, k: nat): string
    requires k <= |s|
    decreases |s| - k
  {
    if k == |s| then ""
    else (if Covered(s, pat, k) then "" else [s[k]]) + Uncovered(s, pat, k + 1)
  }

  // ---------------------------------------------------------------------
  // Facts about Uncovered

  lemma {:induction false} UncoveredSkip(s: string, pat: string, k: nat, n: nat)
    requires k <= n <= |s|
    requires forall j :: k <= j < n ==> Covered(s, pat, j)
    ensures Uncovered(s, pat, k) == Uncovered(s, pat, n)
    decreases n - k
  {
    if k < n {
      UncoveredSkip(s, pat, k + 1, n);
    }
  }

  lemma {:induction false} UncoveredKeep(s: string, pat: string, k: nat, n: nat)
    requires k <= n <= |s|
    requires forall j :: k <= j < n ==> !Covered(s, pat, j)
    ensures Uncovered(s, pat, k) == s[k..n] + Uncovered(s, pat, n)
    decreases n - k
  {
    if k < n {
      assert Uncovered(s, pat, k) == [s[k]] + Uncovered(s, pat, k + 1);
      UncoveredKeep(s, pat, k + 1, n);
      assert s[k..n] == [s[k]] + s[k + 1..n];
    }
  }

  /** Two occurrences of a border-free pattern never overlap. */
  lemma NoOverlap(s: string, pat: string, a: nat, b: nat)
    requires BorderFree(pat)
    requires a < b < a + |pat| && b + |pat| <= |s|
    requires OccursAt(s, pat, a)
    ensures !OccursAt(s, pat, b)
  {
    var m := a + |pat| - b;
    assert pat[|pat| - m..] == s[b..a + |pat|] by {
      assert pat == s[a..a + |pat|];
    }
    assert s[b..b + |pat|][..m] == s[b..a + |pat|];
    assert pat[..m] != pat[|pat| - m..];
  }

  // ---------------------------------------------------------------------
  // The scanner deletes exactly the covered characters

  /** No occurrence starting before k reaches past k. */
  ghost predicate ClearBefore(s: string, pat: string, k: nat)
  {
    forall i :: 0 <= i < k && i + |pat| <= |s| && OccursAt(s, pat, i) ==> i + |pat| <= k
  }

  /** From a position k that no earlier occurrence reaches past, the
      scanner on s[k..] keeps exactly the uncovered characters. */
  lemma {:induction false} RemoveAllFrom(s: string, pat: string, k: nat)
    requires |pat| > 0 && BorderFree(pat)
    requires k <= |s| && ClearBefore(s, pat, k)
    ensures RemoveAll(s[k..], pat) == Uncovered(s, pat, k)
    decreases |s| - k
  {
    if |s| - k < |pat| {
      ShortTail(s, pat, k);
    } else if OccursAt(s, pat, k) {
      MatchStep(s, pat, k);
      RemoveAllFrom(s, pat, k + |pat|);
    } else {
      MissStep(s, pat, k);
      RemoveAllFrom(s, pat, k + 1);
    }
  }

  /** A tail shorter than pat holds no occurrence and is kept whole. */
  lemma ShortTail(s: string, pat: string, k: nat)
    requires |pat| > 0 && k <= |s| && |s| - k < |pat| && ClearBefore(s, pat, k)
    ensures RemoveAll(s[k..], pat) == Uncovered(s, pat, k)
  {
    assert forall j :: k <= j < |s| ==> !Covered(s, pat, j);
    UncoveredKeep(s, pat, k, |s|);
  }

  /** An occurrence at k is deleted whole, and no occurrence reaches past
      its end. */
  lemma MatchStep(s: string, pat: string, k: nat)
    requires |pat| > 0 && BorderFree(pat)
    requires k + |pat| <= |s| && OccursAt(s, pat, k) && ClearBefore(s, pat, k)
    ensures RemoveAll(s[k..], pat) == RemoveAll(s[k + |pat|..], pat)
    ensures Uncovered(s, pat, k) == Uncovered(s, pat, k + |pat|)
    ensures ClearBefore(s, pat, k + |pat|)
  {
    var t := s[k..];
    assert t[..|pat|] == s[k..k + |pat|];
    assert t[|pat|..] == s[k + |pat|..];
    forall j | k <= j < k + |pat| ensures Covered(s, pat, j) {
      assert k <= j < k + |pat| && OccursAt(s, pat, k);
    }
    UncoveredSkip(s, pat, k, k + |pat|);
    forall i | 0 <= i < k + |pat| && i + |pat| <= |s| && OccursAt(s, pat, i)
      ensures i + |pat| <= k + |pat|
    {
      if k < i {
        NoOverlap(s, pat, k, i);
      }
    }
  }

  /** A character that starts no occurrence, and lies in none that starts
      earlier, is kept. */
  lemma MissStep(s: string, pat: string, k: nat)
    requires |pat| > 0
    requires k + |pat| <= |s| && !OccursAt(s, pat, k) && ClearBefore(s, pat, k)
    ensures RemoveAll(s[k..], pat) == [s[k]] + RemoveAll(s[k + 1..], pat)
    ensures Uncovered(s, pat, k) == [s[k]] + Uncovered(s, pat, k + 1)
    ensures ClearBefore(s, pat, k + 1)
  {
    var t := s[k..];
    assert t[..|pat|] == s[k..k + |pat|];
    assert t[1..] == s[k + 1..];
    assert !Covered(s, pat, k);
  }

  /** `s.replace(pat, '')` for a pattern that cannot overlap itself: every
      character inside an occurrence of pat is deleted, every other one is
      kept, in order. */
  lemma RemoveAllDeletesOccurrences(s: string, pat: string)
    requires |pat| > 0 && BorderFree(pat)
    ensures RemoveAll(s, pat) == Uncovered(s, pat, 0)
  {
    assert s[0..] == s;
    RemoveAllFrom(s, pat, 0);
  }
}
