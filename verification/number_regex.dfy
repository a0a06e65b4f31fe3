/** An independent reading of `re.sub(r'\b\d+\b', '', s)`, step 4 of
    `clean_text`, and the proof that the scanner DropNumbers deletes
    exactly the characters this reading says the regular expression
    matches. */
module NumberRegex {
  import opened DocumentProcessor

  /** s[a..b] is a match of `\b\d+\b`: a non-empty run of digits with a
      word boundary on each side.  A digit is a word character, so the
      boundary on the left holds when the character before the run is not
      a word character (afterWord describes the character before s when
      a == 0), and on the right when the character after it is not one or
      the string ends.  Such a run is necessarily a maximal run of digits,
      which is why the greedy `\d+` finds it. */
  ghost predicate MatchSpan(s: string, afterWord: bool, a: int, b: int)
  {
    && 0 <= a < b <= |s|
    && (forall j :: a <= j < b ==> IsDigit(s[j]))
    && (if a == 0 then !afterWord else !IsWordChar(s[a - 1]))
    && (b == |s| || !IsWordChar(s[b]))
  }

  /** Position i of s lies inside some match. */
  ghost predicate Matched(s: string, afterWord: bool, i: int)
  {
    exists a, b :: a <= i < b && MatchSpan(s, afterWord, a, b)
  }

  /** The characters of s[i..] that lie inside no match, in order: what
      the substitution by the empty string leaves. */
  ghost function Unmatched(s: string, afterWord: bool, i: nat): string
    requires i <= |s|
    decreases |s| - i
  {
    if i == |s| then ""
    else (if Matched(s, afterWord, i) then "" else [s[i]]) + Unmatched(s, afterWord, i + 1)
  }

  // ---------------------------------------------------------------------
  // Facts about Unmatched

  lemma {:induction false} UnmatchedSkip(s: string, p: bool, k: nat, n: nat)
    requires k <= n <= |s|
    requires forall j :: k <= j < n ==> Matched(s, p, j)
    ensures Unmatched(s, p, k) == Unmatched(s, p, n)
    decreases n - k
  {
    if k < n {
      UnmatchedSkip(s, p, k + 1, n);
    }
  }

  lemma {:induction false} UnmatchedKeep(s: string, p: bool, k: nat, n: nat)
    requires k <= n <= |s|
    requires forall j :: k <= j < n ==> !Matched(s, p, j)
    ensures Unmatched(s, p, k) == s[k..n] + Unmatched(s, p, n)
    decreases n - k
  {
    if k < n {
      UnmatchedKeep(s, p, k + 1, n);
      assert s[k..n] == [s[k]] + s[k + 1..n];
    }
  }

  /** Where the matches of s from k on are those of s[k..] (with the
      context q), the unmatched characters agree too. */
  lemma {:induction false} UnmatchedShift(s: string, p: bool, k: nat, q: bool, m: nat)
    requires k <= m <= |s|
    requires forall j :: m <= j < |s| ==> (Matched(s, p, j) <==> Matched(s[k..], q, j - k))
    ensures Unmatched(s, p, m) == Unmatched(s[k..], q, m - k)
    decreases |s| - m
  {
    if m < |s| {
      UnmatchedShift(s, p, k, q, m + 1);
      assert s[k..][m - k] == s[m];
    }
  }

  /** Each match shortens the result. */
  lemma {:induction false} UnmatchedShorter(s: string, p: bool, k: nat, j: nat)
    requires k <= j < |s| && Matched(s, p, j)
    ensures |Unmatched(s, p, k)| < |s| - k
    decreases j - k
  {
    UnmatchedAtMost(s, p, k + 1);
    if k < j {
      UnmatchedShorter(s, p, k + 1, j);
    }
  }

  lemma {:induction false} UnmatchedAtMost(s: string, p: bool, k: nat)
    requires k <= |s|
    ensures |Unmatched(s, p, k)| <= |s| - k
    decreases |s| - k
  {
    if k < |s| {
      UnmatchedAtMost(s, p, k + 1);
    }
  }

  /** Unmatched keeps every character exactly when nothing matches. */
  lemma UnmatchedAll(s: string, p: bool)
    ensures Unmatched(s, p, 0) == s <==> forall j :: 0 <= j < |s| ==> !Matched(s, p, j)
  {
    if forall j :: 0 <= j < |s| ==> !Matched(s, p, j) {
      UnmatchedKeep(s, p, 0, |s|);
      assert s[0..|s|] == s;
    } else {
      var j :| 0 <= j < |s| && Matched(s, p, j);
      UnmatchedShorter(s, p, 0, j);
    }
  }

  // ---------------------------------------------------------------------
  // Facts about matches

  /** Cutting s at k leaves the matches from k on unchanged, provided no
      match can straddle the cut: either the cut does not fall inside a
      run of digits, or it falls after the first character and the run
      through it starts right after a word character. */
  lemma MatchedShift(s: string, p: bool, k: nat, j: int)
    requires 1 <= k <= j < |s|
    requires !(IsDigit(s[k - 1]) && IsDigit(s[k])) || (k == 1 && p)
    ensures Matched(s, p, j) <==> Matched(s[k..], IsWordChar(s[k - 1]), j - k)
  {
    var q := IsWordChar(s[k - 1]);
    if Matched(s, p, j) {
      var a, b :| a <= j < b && MatchSpan(s, p, a, b);
      assert a >= k;
      assert a - k > 0 ==> s[k..][a - k - 1] == s[a - 1];
      assert b - k < |s[k..]| ==> s[k..][b - k] == s[b];
      assert MatchSpan(s[k..], q, a - k, b - k);
    }
    if Matched(s[k..], q, j - k) {
      var a', b' :| a' <= j - k < b' && MatchSpan(s[k..], q, a', b');
      assert a' > 0 ==> s[k..][a' - 1] == s[a' + k - 1];
      assert b' < |s[k..]| ==> s[k..][b'] == s[b' + k];
      assert forall i :: a' + k <= i < b' + k ==> s[i] == s[k..][i - k];
      assert MatchSpan(s, p, a' + k, b' + k);
    }
  }

  /** A leading digit run followed by a word character is not matched. */
  lemma KeptRunUnmatched(s: string, p: bool, j: int)
    requires 0 <= j < DigitRunLength(s) < |s| && IsWordChar(s[DigitRunLength(s)])
    ensures !Matched(s, p, j)
  {
  }

  // ---------------------------------------------------------------------
  // The scanner agrees with the regular expression

  /** DropNumbers deletes exactly the characters inside the matches of
      `\b\d+\b`. */
  lemma {:induction false} DropNumbersDeletesMatches(s: string, p: bool)
    ensures DropNumbers(s, p) == Unmatched(s, p, 0)
    decreases |s|
  {
    if |s| == 0 {
    } else if IsDigit(s[0]) && !p {
      var n := DigitRunLength(s);
      DropRun(s);
      DropNumbersDeletesMatches(s[n..], true);
      if n == |s| || !IsWordChar(s[n]) {
        forall j | 0 <= j < n ensures Matched(s, p, j) {
          assert MatchSpan(s, p, 0, n);
        }
        UnmatchedSkip(s, p, 0, n);
      } else {
        forall j | 0 <= j < n ensures !Matched(s, p, j) {
          KeptRunUnmatched(s, p, j);
        }
        UnmatchedKeep(s, p, 0, n);
      }
      forall j | n <= j < |s| ensures Matched(s, p, j) <==> Matched(s[n..], true, j - n) {
        MatchedShift(s, p, n, j);
      }
      UnmatchedShift(s, p, n, true, n);
    } else {
      assert s == [s[0]] + s[1..];
      DropHead(s[0], s[1..], p);
      var q := IsWordChar(s[0]);
      DropNumbersDeletesMatches(s[1..], q);
      assert !Matched(s, p, 0) by {
        assert forall a, b :: a <= 0 < b && MatchSpan(s, p, a, b) ==> IsDigit(s[0]) && !p;
      }
      UnmatchedKeep(s, p, 0, 1);
      forall j | 1 <= j < |s| ensures Matched(s, p, j) <==> Matched(s[1..], q, j - 1) {
        MatchedShift(s, p, 1, j);
      }
      UnmatchedShift(s, p, 1, q, 1);
    }
  }

  /** The output of `clean_text` contains no match of `\b\d+\b`: every
      digit run in it touches a letter. */
  lemma CleanTextHasNoMatch(text: string)
    ensures forall i :: 0 <= i < |CleanText(text)| ==> !Matched(CleanText(text), false, i)
  {
    var y := CleanText(text);
    CleanTextHasNoBoundedDigitRun(text);
    DropNumbersDeletesMatches(y, false);
    UnmatchedAll(y, false);
  }
}
