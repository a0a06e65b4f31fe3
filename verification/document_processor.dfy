/** The text side of backend/document_processor.py: the five-step
    `clean_text` rewrite, stopword filtering, and the filename dispatch of
    `extract_and_preprocess`.  The PDF and DOCX parsers themselves are a
    parameter: they yield the raw text of a document, or nothing when
    parsing fails. */
module DocumentProcessor {
  import opened Basics
  import opened PythonStr

  // ---------------------------------------------------------------------
  // Character classes

  predicate IsDigit(c: char) { '0' <= c <= '9' }

  /** A character `clean_text` keeps inside a token: `[a-z0-9.]`. */
  predicate IsCleanChar(c: char)
  {
    'a' <= c <= 'z' || IsDigit(c) || c == '.'
  }

  /** The regex class `\w` on the characters that reach step 4 of
      `clean_text` (ASCII letters, digits and underscore; after step 2 no
      other word character is left). */
  predicate IsWordChar(c: char)
  {
    'a' <= c <= 'z' || 'A' <= c <= 'Z' || IsDigit(c) || c == '_'
  }

  /** A non-empty token made only of `[a-z0-9.]`. */
  predicate IsCleanToken(w: string)
  {
    |w| > 0 && forall i :: 0 <= i < |w| ==> IsCleanChar(w[i])
  }

  predicate AllCleanTokens(ws: seq<string>)
  {
    forall i :: 0 <= i < |ws| ==> IsCleanToken(ws[i])
  }

  /** The shape of `clean_text`'s output: only `[a-z0-9.]` and single
      spaces, with no space at either end. */
  predicate Canonical(s: string)
  {
    && (forall i :: 0 <= i < |s| ==> IsCleanChar(s[i]) || s[i] == ' ')
    && (|s| > 0 ==> s[0] != ' ' && s[|s| - 1] != ' ')
    && (forall i :: 0 <= i < |s| - 1 && s[i] == ' ' ==> s[i + 1] != ' ')
  }

  // ---------------------------------------------------------------------
  // clean_text, step by step

  /** Step 2: `re.sub(r'[^a-z0-9\s\.]', ' ', s)`. */
  function SanitizeChar(c: char): char
  {
    if IsCleanChar(c) || IsSpace(c) then c else ' '
  }

  function Sanitize(s: string): (r: string)
    ensures |r| == |s|
    ensures forall i :: 0 <= i < |r| ==> IsCleanChar(r[i]) || IsSpace(r[i])
  {
    seq(|s|, i requires 0 <= i < |s| => SanitizeChar(s[i]))
  }

  function DigitRunLength(s: string): (n: nat)
    ensures n <= |s|
    ensures forall i :: 0 <= i < n ==> IsDigit(s[i])
    ensures n < |s| ==> !IsDigit(s[n])
  {
    if |s| == 0 || !IsDigit(s[0]) then 0 else 1 + DigitRunLength(s[1..])
  }

  /** Step 4: `re.sub(r'\b\d+\b', '', s)`.  A maximal run of digits is
      deleted exactly when the character before it and the character after
      it are both non-word characters or string ends; afterWord says whether
      the character just before s (in the whole string) is a word
      character.  Word boundaries are judged on the original string, as
      `re.sub` does. */
  function DropNumbers(s: string, afterWord: bool): (r: string)
    ensures |r| <= |s|
    ensures forall c :: c in r ==> c in s
    decreases |s|
  {
    if |s| == 0 then ""
    else if IsDigit(s[0]) && !afterWord then
      var n := DigitRunLength(s);
      var rest := DropNumbers(s[n..], true);
      assert forall c :: c in rest ==> c in s by {
        forall c | c in rest ensures c in s {
          var k :| 0 <= k < |s[n..]| && s[n..][k] == c;
          assert s[n + k] == c;
        }
      }
      if n == |s| || !IsWordChar(s[n]) then rest
      else s[..n] + rest
    else
      var rest := DropNumbers(s[1..], IsWordChar(s[0]));
      assert forall c :: c in rest ==> c in s by {
        forall c | c in rest ensures c in s {
          var k :| 0 <= k < |s[1..]| && s[1..][k] == c;
          assert s[1 + k] == c;
        }
      }
      [s[0]] + rest
  }

  /** `clean_text`: lowercase, blank out everything but `[a-z0-9]`,
      whitespace and `.`, collapse whitespace, delete the digit runs that
      stand between word boundaries, collapse again. */
  function CleanText(text: string): string
  {
    var lowered := Lower(text);
    var sanitized := Sanitize(lowered);
    var collapsed := Collapse(sanitized);
    var numbersDropped := DropNumbers(collapsed, false);
    Collapse(numbersDropped)
  }

  // ---------------------------------------------------------------------
  // Token view of clean_text

  /** Step 4 applied to each token on its own. */
  function DropNumbersEach(ws: seq<string>): (r: seq<string>)
    ensures |r| == |ws|
    ensures forall i :: 0 <= i < |ws| ==> r[i] == DropNumbers(ws[i], false)
  {
    if |ws| == 0 then [] else [DropNumbers(ws[0], false)] + DropNumbersEach(ws[1..])
  }

  /** The tokens of `clean_text`'s output, computed token by token: split
      the sanitised text, drop the digit runs of each token, and forget the
      tokens that become empty. */
  function CleanTokens(text: string): seq<string>
  {
    NonEmpty(DropNumbersEach(Words(Sanitize(Lower(text)))))
  }

  // ---------------------------------------------------------------------
  // Facts about DropNumbers

  lemma {:induction false} DigitRunLengthConcat(a: string, t: string)
    requires DigitRunLength(a) < |a| || (|t| > 0 && !IsDigit(t[0]))
    ensures DigitRunLength(a + t) == DigitRunLength(a)
    decreases |a|
  {
    if |a| == 0 {
      assert a + t == t;
    } else if IsDigit(a[0]) {
      assert (a + t)[1..] == a[1..] + t;
      DigitRunLengthConcat(a[1..], t);
    } else {
      assert (a + t)[0] == a[0];
    }
  }

  lemma {:induction false} DigitRunLengthOfDigits(d: string)
    requires forall i :: 0 <= i < |d| ==> IsDigit(d[i])
    ensures DigitRunLength(d) == |d|
    decreases |d|
  {
    if |d| > 0 {
      DigitRunLengthOfDigits(d[1..]);
    }
  }

  /** One step of step 4 over a character that does not start a deleted
      run. */
  lemma DropHead(x: char, t: string, p: bool)
    requires !(IsDigit(x) && !p)
    ensures DropNumbers([x] + t, p) == [x] + DropNumbers(t, IsWordChar(x))
  {
    assert ([x] + t)[1..] == t;
  }

  /** A digit run followed by a letter is kept. */
  lemma DropKeptRun(d: string, c: char, t: string)
    requires |d| > 0 && forall i :: 0 <= i < |d| ==> IsDigit(d[i])
    requires IsWordChar(c) && !IsDigit(c)
    ensures DropNumbers(d + [c] + t, false) == d + [c] + DropNumbers(t, true)
  {
    calc {
      DropNumbers(d + [c] + t, false);
      == { assert d + [c] + t == d + ([c] + t); }
      DropNumbers(d + ([c] + t), false);
      == { KeptRunPrefix(d, [c] + t); }
      d + DropNumbers([c] + t, true);
      == { DropHead(c, t, true); }
      d + ([c] + DropNumbers(t, true));
      == { Associate(d, [c], DropNumbers(t, true)); }
      d + [c] + DropNumbers(t, true);
    }
  }

  lemma Associate(a: string, b: string, c: string)
    ensures a + (b + c) == a + b + c
  {
  }

  lemma KeptRunPrefix(d: string, rest: string)
    requires |d| > 0 && forall i :: 0 <= i < |d| ==> IsDigit(d[i])
    requires |rest| > 0 && IsWordChar(rest[0]) && !IsDigit(rest[0])
    ensures DropNumbers(d + rest, false) == d + DropNumbers(rest, true)
  {
    var s := d + rest;
    DigitRunLengthOfDigits(d);
    DigitRunLengthConcat(d, rest);
    assert s[|d|] == rest[0];
    DropKeptRunUnfold(s, |d|);
    assert s[..|d|] == d;
    assert s[|d|..] == rest;
  }

  lemma DropKeptRunUnfold(s: string, n: nat)
    requires 0 < n < |s| && DigitRunLength(s) == n && IsWordChar(s[n])
    ensures DropNumbers(s, false) == s[..n] + DropNumbers(s[n..], true)
  {
    assert IsDigit(s[0]);
  }

  /** Step 4 reaches a fixpoint after one application: what it keeps, it
      keeps again. */
  lemma {:induction false} DropNumbersIdempotent(s: string, p: bool)
    ensures DropNumbers(DropNumbers(s, p), p) == DropNumbers(s, p)
    decreases |s|
  {
    if |s| == 0 {
    } else if IsDigit(s[0]) && !p {
      var n := DigitRunLength(s);
      if n == |s| {
        assert s[n..] == "";
      } else if !IsWordChar(s[n]) {
        assert s[n..] == [s[n]] + s[n + 1..];
        DropHead(s[n], s[n + 1..], true);
        DropHead(s[n], DropNumbers(s[n + 1..], false), false);
        DropNumbersIdempotent(s[n + 1..], false);
      } else {
        var t := DropNumbers(s[n + 1..], true);
        assert s[n..] == [s[n]] + s[n + 1..];
        DropHead(s[n], s[n + 1..], true);
        assert DropNumbers(s, p) == s[..n] + [s[n]] + t;
        DropKeptRun(s[..n], s[n], t);
        DropNumbersIdempotent(s[n + 1..], true);
      }
    } else if IsDigit(s[0]) {
      assert s == [s[0]] + s[1..];
      DropHead(s[0], DropNumbers(s[1..], true), true);
      DropNumbersIdempotent(s[1..], true);
    } else {
      DropHead(s[0], DropNumbers(s[1..], IsWordChar(s[0])), p);
      DropNumbersIdempotent(s[1..], IsWordChar(s[0]));
    }
  }

  /** A separator that is neither a word character nor a digit cuts step 4
      into two independent halves. */
  lemma {:induction false} DropNumbersSplit(a: string, c: char, b: string, p: bool)
    requires !IsWordChar(c)
    ensures DropNumbers(a + [c] + b, p) == DropNumbers(a, p) + [c] + DropNumbers(b, false)
    decreases |a|
  {
    if |a| == 0 {
      assert a + [c] + b == [c] + b;
      DropHead(c, b, p);
    } else if IsDigit(a[0]) && !p {
      var n := DigitRunLength(a);
      DropNumbersSplit(a[n..], c, b, true);
      DropNumbersSplitRun(a, c, b);
    } else {
      DropNumbersSplit(a[1..], c, b, IsWordChar(a[0]));
      DropNumbersSplitStep(a, c, b, p);
    }
  }

  /** The digit-run case of DropNumbersSplit, given the claim for what
      follows the run. */
  lemma DropNumbersSplitRun(a: string, c: char, b: string)
    requires !IsWordChar(c) && |a| > 0 && IsDigit(a[0])
    requires DropNumbers(a[DigitRunLength(a)..] + [c] + b, true)
             == DropNumbers(a[DigitRunLength(a)..], true) + [c] + DropNumbers(b, false)
    ensures DropNumbers(a + [c] + b, false) == DropNumbers(a, false) + [c] + DropNumbers(b, false)
  {
    var n := DigitRunLength(a);
    var tail := DropNumbers(b, false);
    var mid := DropNumbers(a[n..], true);
    Associate(a, [c], b);
    DropRunOfConcat(a, [c] + b);
    Associate(a[n..], [c], b);
    Associate(RunKept(a), mid + [c], tail);
    Associate(RunKept(a), mid, [c]);
    DropRun(a);
  }

  /** Step 4 over a digit run at the head of a, when the run ends inside a
      or right before a character that is not a word character. */
  lemma DropRunOfConcat(a: string, t: string)
    requires |a| > 0 && IsDigit(a[0])
    requires DigitRunLength(a) < |a| || (|t| > 0 && !IsWordChar(t[0]))
    ensures DropNumbers(a + t, false) == RunKept(a) + DropNumbers(a[DigitRunLength(a)..] + t, true)
  {
    var n := DigitRunLength(a);
    DigitRunLengthConcat(a, t);
    RunKeptConcat(a, t);
    assert (a + t)[0] == a[0];
    DropRun(a + t);
    assert (a + t)[n..] == a[n..] + t;
  }

  /** The one-character case of DropNumbersSplit. */
  lemma DropNumbersSplitStep(a: string, c: char, b: string, p: bool)
    requires !IsWordChar(c) && |a| > 0 && !(IsDigit(a[0]) && !p)
    requires DropNumbers(a[1..] + [c] + b, IsWordChar(a[0]))
             == DropNumbers(a[1..], IsWordChar(a[0])) + [c] + DropNumbers(b, false)
    ensures DropNumbers(a + [c] + b, p) == DropNumbers(a, p) + [c] + DropNumbers(b, false)
  {
    var w := IsWordChar(a[0]);
    var tail := DropNumbers(b, false);
    var mid := DropNumbers(a[1..], w);
    DropHeadOfConcat(a, [c] + b, p);
    Associate(a, [c], b);
    Associate(a[1..], [c], b);
    Associate([a[0]], mid + [c], tail);
    Associate([a[0]], mid, [c]);
    DropHeadOfConcat(a, [], p);
    assert a + [] == a && a[1..] + [] == a[1..];
  }

  /** Step 4 over the head of a, when it does not start a deleted run. */
  lemma DropHeadOfConcat(a: string, t: string, p: bool)
    requires |a| > 0 && !(IsDigit(a[0]) && !p)
    ensures DropNumbers(a + t, p) == [a[0]] + DropNumbers(a[1..] + t, IsWordChar(a[0]))
  {
    assert (a + t)[1..] == a[1..] + t;
  }

  /** What step 4 keeps of the digit run at the head of s. */
  function RunKept(s: string): string
  {
    var n := DigitRunLength(s);
    if n == |s| || !IsWordChar(s[n]) then "" else s[..n]
  }

  lemma DropRun(s: string)
    requires |s| > 0 && IsDigit(s[0])
    ensures DropNumbers(s, false) == RunKept(s) + DropNumbers(s[DigitRunLength(s)..], true)
  {
  }

  lemma RunKeptConcat(a: string, t: string)
    requires DigitRunLength(a) < |a| || (|t| > 0 && !IsWordChar(t[0]))
    requires DigitRunLength(a + t) == DigitRunLength(a)
    ensures RunKept(a + t) == RunKept(a)
  {
    var n := DigitRunLength(a);
    if n < |a| {
      assert (a + t)[n] == a[n];
      assert (a + t)[..n] == a[..n];
    } else {
      assert (a + t)[n] == t[0];
    }
  }


  /** Step 4 on a space-joined text works token by token. */
  lemma {:induction false} DropNumbersOfJoin(vs: seq<string>)
    ensures DropNumbers(Join(vs), false) == Join(DropNumbersEach(vs))
    decreases |vs|
  {
    if |vs| >= 2 {
      DropNumbersSplit(vs[0], ' ', Join(vs[1..]), false);
      DropNumbersOfJoin(vs[1..]);
      assert DropNumbersEach(vs)[1..] == DropNumbersEach(vs[1..]);
    }
  }

  /** A token made only of digits disappears. */
  lemma DropAllDigits(d: string)
    requires forall i :: 0 <= i < |d| ==> IsDigit(d[i])
    ensures DropNumbers(d, false) == ""
  {
    if |d| > 0 {
      DigitRunLengthOfDigits(d);
      assert d[|d|..] == "";
    }
  }

  lemma {:induction false} DropAfterWordKeepsWords(s: string)
    requires forall i :: 0 <= i < |s| ==> IsWordChar(s[i])
    ensures DropNumbers(s, true) == s
    decreases |s|
  {
    if |s| > 0 {
      DropAfterWordKeepsWords(s[1..]);
      assert s == [s[0]] + s[1..];
    }
  }

  /** A token of word characters that contains a letter keeps all its
      digits: every digit run in it touches the letter side. */
  lemma {:induction false} DropKeepsAlphanumericWord(s: string)
    requires forall i :: 0 <= i < |s| ==> IsWordChar(s[i])
    requires exists i :: 0 <= i < |s| && !IsDigit(s[i])
    ensures DropNumbers(s, false) == s
  {
    if IsDigit(s[0]) {
      var n := DigitRunLength(s);
      assert n < |s|;
      var d, t := s[..n], s[n + 1..];
      assert s == d + [s[n]] + t;
      KeptRunOfWords(d, s[n], t);
    } else {
      assert s == [s[0]] + s[1..];
      DropHead(s[0], s[1..], false);
      DropAfterWordKeepsWords(s[1..]);
    }
  }

  lemma KeptRunOfWords(d: string, x: char, t: string)
    requires |d| > 0 && forall i :: 0 <= i < |d| ==> IsDigit(d[i])
    requires IsWordChar(x) && !IsDigit(x)
    requires forall i :: 0 <= i < |t| ==> IsWordChar(t[i])
    ensures DropNumbers(d + [x] + t, false) == d + [x] + t
  {
    DropKeptRun(d, x, t);
    DropAfterWordKeepsWords(t);
  }

  // ---------------------------------------------------------------------
  // Properties of clean_text

  lemma SanitizedWordsAreClean(text: string)
    ensures AllCleanTokens(Words(Sanitize(Lower(text))))
  {
    var s := Sanitize(Lower(text));
    var ws := Words(s);
    forall i | 0 <= i < |ws| ensures IsCleanToken(ws[i]) {
      forall j | 0 <= j < |ws[i]| ensures IsCleanChar(ws[i][j]) {
        assert ws[i][j] in s;
        assert !IsSpace(ws[i][j]);
      }
    }
  }

  lemma {:induction false} DropEachOfCleanTokens(ws: seq<string>)
    requires AllCleanTokens(ws)
    ensures AllSpaceless(DropNumbersEach(ws))
    ensures forall i, j :: 0 <= i < |ws| && 0 <= j < |DropNumbersEach(ws)[i]| ==> IsCleanChar(DropNumbersEach(ws)[i][j])
  {
    var ds := DropNumbersEach(ws);
    forall i, j | 0 <= i < |ws| && 0 <= j < |ds[i]| ensures IsCleanChar(ds[i][j]) && !IsSpace(ds[i][j]) {
      assert ds[i][j] in ds[i];
      assert ds[i][j] in ws[i];
    }
  }

  /** `clean_text` is the single-space join of `CleanTokens`: its output
      token list is the sanitised tokens with their bounded digit runs
      removed and the emptied tokens dropped. */
  lemma CleanTextTokens(text: string)
    ensures CleanText(text) == Join(CleanTokens(text))
    ensures AllCleanTokens(CleanTokens(text))
    ensures forall i :: 0 <= i < |CleanTokens(text)| ==> DropNumbers(CleanTokens(text)[i], false) == CleanTokens(text)[i]
  {
    var ws := Words(Sanitize(Lower(text)));
    SanitizedWordsAreClean(text);
    var ds := DropNumbersEach(ws);
    DropNumbersOfJoin(ws);
    DropEachOfCleanTokens(ws);
    WordsOfJoin(ds);
    NonEmptyIsTokens(ds);
    var vs := NonEmpty(ds);
    forall i | 0 <= i < |vs| ensures IsCleanToken(vs[i]) && DropNumbers(vs[i], false) == vs[i] {
      var k :| 0 <= k < |ds| && ds[k] == vs[i];
      assert DropNumbers(vs[i], false) == vs[i] by {
        DropNumbersIdempotent(ws[k], false);
      }
      forall j | 0 <= j < |vs[i]| ensures IsCleanChar(vs[i][j]) {
        assert vs[i][j] == ds[k][j];
      }
    }
  }

  lemma {:induction false} CleanTokensAreTokens(ws: seq<string>)
    requires AllCleanTokens(ws)
    ensures AllTokens(ws)
  {
    forall i | 0 <= i < |ws| ensures IsToken(ws[i]) {
      assert forall j :: 0 <= j < |ws[i]| ==> IsCleanChar(ws[i][j]);
    }
  }

  /** Joining clean tokens yields canonical text. */
  lemma {:induction false} JoinCleanIsCanonical(ws: seq<string>)
    requires AllCleanTokens(ws)
    ensures Canonical(Join(ws))
    decreases |ws|
  {
    if |ws| == 1 {
    } else if |ws| >= 2 {
      JoinCleanIsCanonical(ws[1..]);
      var j := Join(ws[1..]);
      var s := ws[0] + " " + j;
      assert Join(ws) == s;
      assert IsCleanToken(ws[0]);
      assert |j| > 0 && j[0] != ' ' by {
        assert IsCleanToken(ws[1]);
        if |ws| == 2 { assert j == ws[1]; } else { assert j[0] == ws[1][0]; }
      }
      forall i | 0 <= i < |s| ensures IsCleanChar(s[i]) || s[i] == ' ' {
        if i < |ws[0]| { assert s[i] == ws[0][i]; }
        else if i > |ws[0]| { assert s[i] == j[i - |ws[0]| - 1]; }
      }
      forall i | 0 <= i < |s| - 1 && s[i] == ' ' ensures s[i + 1] != ' ' {
        if i < |ws[0]| {
          assert false;
        } else if i == |ws[0]| {
          assert s[i + 1] == j[0];
        } else {
          assert s[i] == j[i - |ws[0]| - 1];
          assert s[i + 1] == j[i - |ws[0]|];
        }
      }
      assert s[0] == ws[0][0];
      assert s[|s| - 1] == j[|j| - 1];
    }
  }

  /** `clean_text`'s output has only `[a-z0-9.]` and single inner spaces. */
  lemma CleanTextIsCanonical(text: string)
    ensures Canonical(CleanText(text))
  {
    CleanTextTokens(text);
    JoinCleanIsCanonical(CleanTokens(text));
  }

  /** After `clean_text`, the digit-run regex of step 4 finds nothing more
      to delete. */
  lemma CleanTextHasNoBoundedDigitRun(text: string)
    ensures DropNumbers(CleanText(text), false) == CleanText(text)
  {
    CleanTextTokens(text);
    var vs := CleanTokens(text);
    DropNumbersOfJoin(vs);
    assert DropNumbersEach(vs) == vs;
  }

  lemma CanonicalSanitizeFixed(s: string)
    requires Canonical(s)
    ensures Sanitize(Lower(s)) == s
  {
    var r := Sanitize(Lower(s));
    forall i | 0 <= i < |s| ensures r[i] == s[i] {
      assert Lower(s)[i] == LowerChar(s[i]);
    }
  }

  /** `clean_text` is idempotent. */
  lemma CleanTextIdempotent(text: string)
    ensures CleanText(CleanText(text)) == CleanText(text)
  {
    var y := CleanText(text);
    CleanTextTokens(text);
    var vs := CleanTokens(text);
    CleanTextIsCanonical(text);
    CanonicalSanitizeFixed(y);
    CleanTokensAreTokens(vs);
    WordsJoinRoundTrip(vs);
    assert DropNumbersEach(vs) == vs;
    NonEmptyOfTokens(vs);
    CleanTextTokens(y);
  }

  lemma CleanTextOfEmpty()
    ensures CleanText("") == ""
  {
  }

  /** Nothing outside `[a-z0-9.]` and the space survives, so for instance
      `@`, `#`, `$` and `%` are always removed. */
  lemma CleanTextRemovesSpecialChars(text: string, c: char)
    requires !IsCleanChar(c) && c != ' '
    ensures c !in CleanText(text)
  {
    CleanTextIsCanonical(text);
  }

  /** A whitespace token made only of digits never reaches the output; a
      token of letters and digits with at least one letter reaches it
      unchanged. */
  lemma CleanTokenFate(w: string)
    requires IsCleanToken(w)
    ensures (forall i :: 0 <= i < |w| ==> IsDigit(w[i])) ==> DropNumbers(w, false) == ""
    ensures (forall i :: 0 <= i < |w| ==> IsWordChar(w[i])) && (exists i :: 0 <= i < |w| && !IsDigit(w[i]))
            ==> DropNumbers(w, false) == w
  {
    if forall i :: 0 <= i < |w| ==> IsDigit(w[i]) { DropAllDigits(w); }
    if (forall i :: 0 <= i < |w| ==> IsWordChar(w[i])) && (exists i :: 0 <= i < |w| && !IsDigit(w[i])) {
      DropKeepsAlphanumericWord(w);
    }
  }

  // ---------------------------------------------------------------------
  // Stopwords

  /** The fixed stopword table of `_load_stopwords` (38 words). */
  const Stopwords: set<string> := {
    "a", "an", "and", "are", "as", "at", "be", "by", "for", "from",
    "has", "he", "in", "is", "it", "its", "of", "on", "or", "that",
    "the", "to", "was", "will", "with", "i", "me", "my", "we", "you",
    "your", "this", "but", "not", "can", "could", "would", "should"
  }

  predicate IsStopword(w: string)
  {
    Lower(w) in Stopwords
  }

  /** The tokens that are not stopwords, in their original order. */
  function ContentWords(ws: seq<string>): (r: seq<string>)
    ensures |r| <= |ws|
  {
    if |ws| == 0 then []
    else (if IsStopword(ws[0]) then [] else [ws[0]]) + ContentWords(ws[1..])
  }

  /** `remove_stopwords`: split, drop the stopwords (compared lower-cased),
      join with single spaces. */
  function RemoveStopwords(text: string): string
  {
    Join(ContentWords(Words(text)))
  }

  lemma {:induction false} ContentWordsMembers(ws: seq<string>)
    ensures forall w :: w in ContentWords(ws) <==> w in ws && !IsStopword(w)
    decreases |ws|
  {
    if |ws| > 0 {
      ContentWordsMembers(ws[1..]);
      assert ws == [ws[0]] + ws[1..];
    }
  }

  /** The filter acts on each word alone, so it distributes over concatenation. */
  lemma {:induction false} ContentWordsAppend(a: seq<string>, b: seq<string>)
    ensures ContentWords(a + b) == ContentWords(a) + ContentWords(b)
    decreases |a|
  {
    if |a| > 0 {
      assert (a + b)[0] == a[0];
      assert (a + b)[1..] == a[1..] + b;
      ContentWordsAppend(a[1..], b);
    } else {
      assert a + b == b;
    }
  }

  lemma {:induction false} ContentWordsIdempotent(ws: seq<string>)
    ensures ContentWords(ContentWords(ws)) == ContentWords(ws)
    decreases |ws|
  {
    if |ws| > 0 {
      ContentWordsIdempotent(ws[1..]);
      var rest := ContentWords(ws[1..]);
      if !IsStopword(ws[0]) {
        var c := [ws[0]] + rest;
        assert c[0] == ws[0] && c[1..] == rest;
        assert ContentWords(c) == [ws[0]] + ContentWords(rest);
      } else {
        assert ContentWords(ws) == rest;
      }
    }
  }

  /** The tokens of `remove_stopwords`' output are exactly the input's
      tokens that are not stopwords, in order; a token is in the output iff
      it is an input token and not a stopword. */
  lemma RemoveStopwordsTokens(text: string)
    ensures Words(RemoveStopwords(text)) == ContentWords(Words(text))
    ensures forall w :: w in Words(RemoveStopwords(text)) <==> w in Words(text) && !IsStopword(w)
  {
    var ws := Words(text);
    ContentWordsMembers(ws);
    assert forall i :: 0 <= i < |ContentWords(ws)| ==> ContentWords(ws)[i] in ws;
    assert AllTokens(ContentWords(ws));
    WordsJoinRoundTrip(ContentWords(ws));
  }

  /** `remove_stopwords` is idempotent. */
  lemma RemoveStopwordsIdempotent(text: string)
    ensures RemoveStopwords(RemoveStopwords(text)) == RemoveStopwords(text)
  {
    RemoveStopwordsTokens(text);
    ContentWordsIdempotent(Words(text));
  }

  /** Filtering canonical text keeps it canonical. */
  lemma RemoveStopwordsKeepsCanonical(text: string)
    requires Canonical(text)
    ensures Canonical(RemoveStopwords(text))
  {
    var ws := Words(text);
    ContentWordsMembers(ws);
    var cs := ContentWords(ws);
    forall i | 0 <= i < |cs| ensures IsCleanToken(cs[i]) {
      assert cs[i] in ws;
      forall j | 0 <= j < |cs[i]| ensures IsCleanChar(cs[i][j]) {
        var k :| 0 <= k < |ws| && ws[k] == cs[i];
        assert ws[k][j] in text;
        assert !IsSpace(ws[k][j]);
      }
    }
    JoinCleanIsCanonical(cs);
  }

  // ---------------------------------------------------------------------
  // extract_and_preprocess

  datatype Format = Pdf | Docx

  /** No filename ends with both `.pdf` and `.docx`. */
  lemma PdfAndDocxExclusive(filename: string)
    ensures !(EndsWith(filename, ".pdf") && EndsWith(filename, ".docx"))
  {
    if |filename| >= 4 {
      assert EndsWith(filename, ".pdf") ==> filename[|filename| - 1] == 'f';
      assert EndsWith(filename, ".docx") ==> filename[|filename| - 1] == 'x';
    }
  }

  /** The case-sensitive `endswith` dispatch: `.pdf` is checked first. */
  function Dispatch(filename: string): (f: Option<Format>)
    ensures f == Some(Pdf) <==> EndsWith(filename, ".pdf")
    ensures f == Some(Docx) <==> EndsWith(filename, ".docx")
    ensures f == None <==> !EndsWith(filename, ".pdf") && !EndsWith(filename, ".docx")
  {
    PdfAndDocxExclusive(filename);
    if EndsWith(filename, ".pdf") then Some(Pdf)
    else if EndsWith(filename, ".docx") then Some(Docx)
    else None
  }

  /** `extract_from_pdf` / `extract_from_docx`: the parser's text, cleaned;
      nothing when the parser fails. */
  function Extract<C>(format: Format, content: C, parse: (Format, C) -> Option<string>): (r: Option<string>)
    ensures r.Some? <==> parse(format, content).Some?
    ensures r.Some? ==> r.value == CleanText(parse(format, content).value)
    ensures r.Some? ==> Canonical(r.value)
  {
    match parse(format, content)
    case None => None
    case Some(raw) =>
      CleanTextIsCanonical(raw);
      Some(CleanText(raw))
  }

  /** `extract_and_preprocess`: dispatch on the filename, extract and clean,
      and remove stopwords when the cleaned text is not empty. */
  function ExtractAndPreprocess<C>(content: C, filename: string, parse: (Format, C) -> Option<string>): (r: Option<string>)
    ensures r.Some? <==>
      && Dispatch(filename).Some?
      && parse(Dispatch(filename).value, content).Some?
      && CleanText(parse(Dispatch(filename).value, content).value) != ""
    ensures r.Some? ==> Canonical(r.value)
    ensures r.Some? ==> Words(r.value) == ContentWords(Words(CleanText(parse(Dispatch(filename).value, content).value)))
    ensures r.Some? ==> forall w :: w in Words(r.value) <==>
      w in Words(CleanText(parse(Dispatch(filename).value, content).value)) && !IsStopword(w)
  {
    match Dispatch(filename)
    case None => None
    case Some(format) =>
      var text := Extract(format, content, parse);
      if text.Some? && text.value != "" then
        RemoveStopwordsKeepsCanonical(text.value);
        RemoveStopwordsTokens(text.value);
        Some(RemoveStopwords(text.value))
      else None
  }
}
