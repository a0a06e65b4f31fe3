/** The handful of Python `str` operations the screening core relies on:
    `isspace`, `lower`, `split()`, `' '.join`, `strip()`, `endswith`,
    `replace(pat, '')` and `rfind`.  Characters are Unicode scalar values,
    as in Python 3 strings. */
module PythonStr {

  /** `c.isspace()`: the characters Python's `str.split()`, `str.strip()`
      and the regex class `\s` all treat as whitespace. */
  predicate IsSpace(c: char)
  {
    var n := c as int;
    (9 <= n <= 13) || (28 <= n <= 32) || n == 0x85 || n == 0xA0 || n == 0x1680
    || (0x2000 <= n <= 0x200A) || n == 0x2028 || n == 0x2029 || n == 0x202F
    || n == 0x205F || n == 0x3000
  }

  /** `str.lower()` on one character, for the ASCII range. */
  function LowerChar(c: char): (r: char)
    ensures 'A' <= c <= 'Z' ==> 'a' <= r <= 'z'
    ensures !('A' <= c <= 'Z') ==> r == c
  {
    if 'A' <= c <= 'Z' then (c as int - 'A' as int + 'a' as int) as char else c
  }

  /** `s.lower()`, character by character (ASCII case mapping only). */
  function Lower(s: string): (r: string)
    ensures |r| == |s|
    ensures forall i :: 0 <= i < |r| ==> !('A' <= r[i] <= 'Z')
    ensures forall i :: 0 <= i < |s| && 'A' <= s[i] <= 'Z' ==> r[i] as int == s[i] as int + 32
    ensures forall i :: 0 <= i < |s| && !('A' <= s[i] <= 'Z') ==> r[i] == s[i]
  {
    seq(|s|, i requires 0 <= i < |s| => LowerChar(s[i]))
  }

  predicate Spaceless(w: string)
  {
    forall i :: 0 <= i < |w| ==> !IsSpace(w[i])
  }

  /** A token as produced by `str.split()`: non-empty, no whitespace. */
  predicate IsToken(w: string)
  {
    |w| > 0 && Spaceless(w)
  }

  predicate AllTokens(ws: seq<string>)
  {
    forall i :: 0 <= i < |ws| ==> IsToken(ws[i])
  }

  predicate AllSpaceless(ws: seq<string>)
  {
    forall i :: 0 <= i < |ws| ==> Spaceless(ws[i])
  }

  /** `s.isspace() or s == ''`, i.e. `not s.strip()`. */
  predicate IsBlank(s: string)
  {
    forall i :: 0 <= i < |s| ==> IsSpace(s[i])
  }

  /** Length of the leading run of non-whitespace characters. */
  function TokenLength(s: string): (n: nat)
    ensures n <= |s|
    ensures forall i :: 0 <= i < n ==> !IsSpace(s[i])
    ensures n < |s| ==> IsSpace(s[n])
  {
    if |s| == 0 || IsSpace(s[0]) then 0 else 1 + TokenLength(s[1..])
  }

  /** `s.split()` with no separator: the maximal runs of non-whitespace
      characters, in order. */
  function Words(s: string): (ws: seq<string>)
    ensures AllTokens(ws)
    ensures forall i, j :: 0 <= i < |ws| && 0 <= j < |ws[i]| ==> ws[i][j] in s
    decreases |s|
  {
    if |s| == 0 then []
    else if IsSpace(s[0]) then
      var rest := Words(s[1..]);
      assert forall i, j :: 0 <= i < |rest| && 0 <= j < |rest[i]| ==> rest[i][j] in s by {
        forall i, j | 0 <= i < |rest| && 0 <= j < |rest[i]|
          ensures rest[i][j] in s
        {
          var k :| 0 <= k < |s[1..]| && s[1..][k] == rest[i][j];
          assert s[k + 1] == rest[i][j];
        }
      }
      rest
    else
      var n := TokenLength(s);
      var rest := Words(s[n..]);
      assert forall i, j :: 0 <= i < |rest| && 0 <= j < |rest[i]| ==> rest[i][j] in s by {
        forall i, j | 0 <= i < |rest| && 0 <= j < |rest[i]|
          ensures rest[i][j] in s
        {
          var k :| 0 <= k < |s[n..]| && s[n..][k] == rest[i][j];
          assert s[k + n] == rest[i][j];
        }
      }
      [s[..n]] + rest
  }

  /** `' '.join(ws)`: the pieces separated by single spaces (empty pieces
      included, as Python does). */
  function Join(ws: seq<string>): string
  {
    if |ws| == 0 then ""
    else if |ws| == 1 then ws[0]
    else ws[0] + " " + Join(ws[1..])
  }

  /** `' '.join(s.split())`: whitespace runs collapsed to one space, ends trimmed. */
  function Collapse(s: string): string
  {
    Join(Words(s))
  }

  /** The pieces of ws that are not empty, in order. */
  function NonEmpty(ws: seq<string>): (r: seq<string>)
    ensures |r| <= |ws|
  {
    if |ws| == 0 then []
    else (if ws[0] == "" then [] else [ws[0]]) + NonEmpty(ws[1..])
  }

  function TrimLeft(s: string): (r: string)
    ensures |r| <= |s| && r == s[|s| - |r|..]
    ensures IsBlank(s[..|s| - |r|])
    ensures r == "" <==> IsBlank(s)
    ensures |r| > 0 ==> !IsSpace(r[0])
  {
    if |s| > 0 && IsSpace(s[0]) then
      var t := s[1..];
      var r := TrimLeft(t);
      BlankCons(s[0], t);
      BlankCons(s[0], t[..|t| - |r|]);
      assert s == [s[0]] + t;
      assert s[..|s| - |r|] == [s[0]] + t[..|t| - |r|];
      r
    else s
  }

  /** A leading whitespace character does not change blankness. */
  lemma BlankCons(c: char, t: string)
    requires IsSpace(c)
    ensures IsBlank([c] + t) <==> IsBlank(t)
  {
    if IsBlank(t) {
      forall i | 0 <= i < |t| + 1 ensures IsSpace(([c] + t)[i]) {
        if i > 0 { assert ([c] + t)[i] == t[i - 1]; }
      }
    }
    if IsBlank([c] + t) {
      forall i | 0 <= i < |t| ensures IsSpace(t[i]) {
        assert t[i] == ([c] + t)[i + 1];
      }
    }
  }

  function TrimRight(s: string): (r: string)
    ensures |r| <= |s| && r == s[..|r|]
    ensures IsBlank(s[|r|..])
    ensures |r| > 0 ==> !IsSpace(r[|r| - 1])
    ensures |s| > 0 && !IsSpace(s[0]) ==> |r| > 0
  {
    if |s| > 0 && IsSpace(s[|s| - 1]) then
      var r := TrimRight(s[..|s| - 1]);
      assert s[|r|..] == s[..|s| - 1][|r|..] + [s[|s| - 1]];
      r
    else s
  }

  /** `s.strip()`: s without its leading and trailing whitespace; empty
      exactly when s is blank. */
  function Strip(s: string): (r: string)
    ensures exists i, j :: 0 <= i <= j <= |s| && r == s[i..j] && IsBlank(s[..i]) && IsBlank(s[j..])
    ensures r == "" <==> IsBlank(s)
    ensures |r| > 0 ==> !IsSpace(r[0]) && !IsSpace(r[|r| - 1])
  {
    var left := TrimLeft(s);
    var r := TrimRight(left);
    StripSlices(s, left, r);
    assert |r| > 0 ==> r[0] == left[0];
    r
  }

  /** The prefix r of the suffix left of s is a slice of s, and what
      follows r in left is what follows it in s. */
  lemma StripSlices(s: string, left: string, r: string)
    requires |left| <= |s| && left == s[|s| - |left|..]
    requires |r| <= |left| && r == left[..|r|]
    ensures r == s[|s| - |left|..|s| - |left| + |r|]
    ensures s[|s| - |left| + |r|..] == left[|r|..]
  {
  }

  /** `s.endswith(suffix)`. */
  predicate EndsWith(s: string, suffix: string)
  {
    |suffix| <= |s| && s[|s| - |suffix|..] == suffix
  }

  /** pat occurs nowhere in s. */
  predicate NoOccurrence(s: string, pat: string)
  {
    forall i :: 0 <= i && i + |pat| <= |s| ==> !OccursAt(s, pat, i)
  }

  predicate OccursAt(s: string, pat: string, i: nat)
    requires i + |pat| <= |s|
  {
    s[i..i + |pat|] == pat
  }

  /** No proper non-empty prefix of pat is also a suffix of it, so two
      occurrences of pat can never overlap. */
  predicate BorderFree(pat: string)
  {
    forall k :: 0 < k < |pat| ==> pat[..k] != pat[|pat| - k..]
  }

  /** `s.replace(pat, '')`: scanning left to right, every non-overlapping
      occurrence of pat is deleted.  An empty pattern leaves s unchanged. */
  function RemoveAll(s: string, pat: string): (r: string)
    ensures |r| <= |s|
    decreases |s|
  {
    if |pat| == 0 || |s| < |pat| then s
    else if s[..|pat|] == pat then RemoveAll(s[|pat|..], pat)
    else [s[0]] + RemoveAll(s[1..], pat)
  }

  /** Every occurrence removed costs length: the result is as long as s
      exactly when pat does not occur in s. */
  lemma {:induction false} RemoveAllShortens(s: string, pat: string)
    requires |pat| > 0
    ensures |RemoveAll(s, pat)| == |s| <==> NoOccurrence(s, pat)
    decreases |s|
  {
    if |s| < |pat| {
    } else if s[..|pat|] == pat {
      assert OccursAt(s, pat, 0);
    } else {
      assert !OccursAt(s, pat, 0);
      OccurrenceShift(s, pat);
      RemoveAllShortens(s[1..], pat);
    }
  }

  /** Past its first character, the occurrences in s are those in s[1..]. */
  lemma OccurrenceShift(s: string, pat: string)
    requires |s| > 0 && |pat| <= |s| && !OccursAt(s, pat, 0)
    ensures NoOccurrence(s, pat) <==> NoOccurrence(s[1..], pat)
  {
    forall i | 0 <= i && i + |pat| <= |s| - 1
      ensures OccursAt(s, pat, i + 1) <==> OccursAt(s[1..], pat, i)
    {
      assert s[i + 1..i + 1 + |pat|] == s[1..][i..i + |pat|];
    }
    if !NoOccurrence(s, pat) {
      var i :| 0 <= i && i + |pat| <= |s| && OccursAt(s, pat, i);
      assert i > 0;
      assert OccursAt(s[1..], pat, i - 1);
    }
  }

  /** `s.replace(pat, '')` returns s itself exactly when pat does not occur in s. */
  lemma RemoveAllUnchanged(s: string, pat: string)
    requires |pat| > 0
    ensures RemoveAll(s, pat) == s <==> NoOccurrence(s, pat)
  {
    RemoveAllShortens(s, pat);
    if NoOccurrence(s, pat) {
      RemoveAllNoOccurrence(s, pat);
    }
  }

  /** A string that ends with pat contains it. */
  lemma EndsWithOccurs(s: string, pat: string)
    ensures |pat| > 0 && EndsWith(s, pat) ==> !NoOccurrence(s, pat)
  {
    if |pat| > 0 && EndsWith(s, pat) {
      assert OccursAt(s, pat, |s| - |pat|);
    }
  }

  /** RemoveAll steps over a character that does not start an occurrence. */
  lemma RemoveAllKeepHead(x: char, t: string, pat: string)
    requires |pat| > 0 && x != pat[0]
    ensures RemoveAll([x] + t, pat) == [x] + RemoveAll(t, pat)
  {
    assert ([x] + t)[1..] == t;
    if |t| + 1 >= |pat| {
      assert ([x] + t)[..|pat|][0] == x;
    }
  }

  /** RemoveAll deletes an occurrence at the head. */
  lemma RemoveAllDropHead(t: string, pat: string)
    requires |pat| > 0
    ensures RemoveAll(pat + t, pat) == RemoveAll(t, pat)
  {
    assert (pat + t)[..|pat|] == pat;
    assert (pat + t)[|pat|..] == t;
  }

  /** `s.rfind(c)`: the index of the last c in s, or -1. */
  function RFind(s: string, c: char): (i: int)
    ensures -1 <= i < |s|
    ensures 0 <= i ==> s[i] == c
    ensures forall j :: i < j < |s| ==> s[j] != c
  {
    if |s| == 0 then -1
    else if s[|s| - 1] == c then |s| - 1
    else RFind(s[..|s| - 1], c)
  }

  // ---------------------------------------------------------------------
  // split / join

  lemma {:induction false} TokenLengthOfPrefix(w: string, c: char, rest: string)
    requires Spaceless(w) && IsSpace(c)
    ensures TokenLength(w + [c] + rest) == |w|
    decreases |w|
  {
    if |w| == 0 {
    } else {
      assert (w + [c] + rest)[1..] == w[1..] + [c] + rest;
      TokenLengthOfPrefix(w[1..], c, rest);
    }
  }

  lemma {:induction false} TokenLengthOfSpaceless(w: string)
    requires Spaceless(w)
    ensures TokenLength(w) == |w|
    decreases |w|
  {
    if |w| > 0 {
      TokenLengthOfSpaceless(w[1..]);
    }
  }

  lemma WordsOfSpaceless(w: string)
    requires Spaceless(w)
    ensures Words(w) == if w == "" then [] else [w]
  {
    if w != "" {
      TokenLengthOfSpaceless(w);
      assert w[..|w|] == w;
      assert w[|w|..] == "";
      assert Words(w) == [w[..|w|]] + Words(w[|w|..]);
    }
  }

  /** `split` undoes `join`, up to dropping empty pieces. */
  lemma {:induction false} WordsOfJoin(vs: seq<string>)
    requires AllSpaceless(vs)
    ensures Words(Join(vs)) == NonEmpty(vs)
    decreases |vs|
  {
    if |vs| == 0 {
    } else if |vs| == 1 {
      WordsOfSpaceless(vs[0]);
      assert NonEmpty(vs) == (if vs[0] == "" then [] else [vs[0]]) + NonEmpty(vs[1..]);
    } else {
      var j := Join(vs[1..]);
      var s := vs[0] + " " + j;
      assert Join(vs) == s;
      WordsOfJoin(vs[1..]);
      if vs[0] == "" {
        assert s == " " + j;
        assert s[1..] == j;
      } else {
        TokenLengthOfPrefix(vs[0], ' ', j);
        assert s[..|vs[0]|] == vs[0];
        assert s[|vs[0]|..] == " " + j;
        assert s[|vs[0]|..][1..] == j;
      }
    }
  }

  lemma {:induction false} NonEmptyOfTokens(ws: seq<string>)
    requires AllTokens(ws)
    ensures NonEmpty(ws) == ws
    decreases |ws|
  {
    if |ws| > 0 {
      NonEmptyOfTokens(ws[1..]);
      assert ws == [ws[0]] + ws[1..];
    }
  }

  /** The round trip `split(join(ws)) == ws` for a list of tokens. */
  lemma WordsJoinRoundTrip(ws: seq<string>)
    requires AllTokens(ws)
    ensures Words(Join(ws)) == ws
  {
    WordsOfJoin(ws);
    NonEmptyOfTokens(ws);
  }

  lemma {:induction false} NonEmptyIsTokens(vs: seq<string>)
    requires AllSpaceless(vs)
    ensures AllTokens(NonEmpty(vs))
    ensures forall i :: 0 <= i < |NonEmpty(vs)| ==> NonEmpty(vs)[i] in vs
    decreases |vs|
  {
    if |vs| > 0 {
      NonEmptyIsTokens(vs[1..]);
    }
  }

  /** The characters of `' '.join(ws)` are those of the pieces and spaces. */
  lemma {:induction false} JoinChars(ws: seq<string>, P: char -> bool)
    requires forall i, j :: 0 <= i < |ws| && 0 <= j < |ws[i]| ==> P(ws[i][j])
    ensures forall k :: 0 <= k < |Join(ws)| ==> P(Join(ws)[k]) || Join(ws)[k] == ' '
    decreases |ws|
  {
    if |ws| >= 2 {
      JoinChars(ws[1..], P);
      var j := Join(ws[1..]);
      forall k | 0 <= k < |Join(ws)| ensures P(Join(ws)[k]) || Join(ws)[k] == ' ' {
        if k < |ws[0]| {
          assert Join(ws)[k] == ws[0][k];
        } else if k > |ws[0]| {
          assert Join(ws)[k] == j[k - |ws[0]| - 1];
        }
      }
    }
  }

  // ---------------------------------------------------------------------
  // replace(pat, '')

  lemma {:induction false} RemoveAllNoOccurrence(s: string, pat: string)
    requires NoOccurrence(s, pat)
    ensures RemoveAll(s, pat) == s
    decreases |s|
  {
    if |pat| == 0 || |s| < |pat| {
    } else {
      assert !OccursAt(s, pat, 0);
      assert s[..|pat|] == s[0..|pat|];
      assert NoOccurrence(s[1..], pat) by {
        forall i | 0 <= i && i + |pat| <= |s[1..]| ensures !OccursAt(s[1..], pat, i) {
          assert !OccursAt(s, pat, i + 1);
          assert s[1..][i..i + |pat|] == s[i + 1..i + 1 + |pat|];
        }
      }
      RemoveAllNoOccurrence(s[1..], pat);
      assert s == [s[0]] + s[1..];
    }
  }

  /** Deleting every occurrence of a border-free pattern from `x + pat`
      deletes the final copy and treats x as if it stood alone: no
      occurrence can straddle the boundary. */
  lemma {:induction false} RemoveAllAppend(x: string, pat: string)
    requires |pat| > 0 && BorderFree(pat)
    ensures RemoveAll(x + pat, pat) == RemoveAll(x, pat)
    decreases |x|
  {
    var s := x + pat;
    if |x| == 0 {
      assert s == pat;
      assert s[..|pat|] == pat;
      assert s[|pat|..] == "";
    } else if |x| < |pat| {
      var k := |pat| - |x|;
      assert pat[..k] != pat[|pat| - k..];
      assert s[..|pat|] != pat;
      assert s[1..] == x[1..] + pat;
      RemoveAllAppend(x[1..], pat);
      assert RemoveAll(x[1..], pat) == x[1..];
      assert x == [x[0]] + x[1..];
    } else {
      assert s[..|pat|] == x[..|pat|];
      if x[..|pat|] == pat {
        assert s[|pat|..] == x[|pat|..] + pat;
        RemoveAllAppend(x[|pat|..], pat);
      } else {
        assert s[1..] == x[1..] + pat;
        RemoveAllAppend(x[1..], pat);
      }
    }
  }

  // ---------------------------------------------------------------------
  // split on arbitrary whitespace

  /** gaps[0] + ws[0] + gaps[1] + ... + ws[n - 1] + gaps[n]. */
  function Interleave(gaps: seq<string>, ws: seq<string>): string
    requires |gaps| == |ws| + 1
    decreases |ws|
  {
    if |ws| == 0 then gaps[0] else gaps[0] + ws[0] + Interleave(gaps[1..], ws[1..])
  }

  /** n + 1 runs of whitespace of any kind (spaces, tabs, newlines), those
      between two tokens non-empty: how whitespace may surround n tokens. */
  predicate Separators(gaps: seq<string>, n: nat)
  {
    && |gaps| == n + 1
    && (forall i :: 0 <= i < |gaps| ==> IsBlank(gaps[i]))
    && (forall i :: 0 < i < n ==> |gaps[i]| > 0)
  }

  /** Leading whitespace is skipped. */
  lemma {:induction false} WordsOfBlankPrefix(g: string, t: string)
    requires IsBlank(g)
    ensures Words(g + t) == Words(t)
    decreases |g|
  {
    if |g| > 0 {
      assert (g + t)[0] == g[0];
      assert (g + t)[1..] == g[1..] + t;
      WordsOfBlankPrefix(g[1..], t);
    } else {
      assert g + t == t;
    }
  }

  /** A token followed by whitespace or the end is split off whole. */
  lemma WordsOfTokenHead(w: string, t: string)
    requires IsToken(w) && (|t| == 0 || IsSpace(t[0]))
    ensures Words(w + t) == [w] + Words(t)
  {
    var s := w + t;
    if |t| == 0 {
      assert s == w;
      TokenLengthOfSpaceless(w);
    } else {
      assert s == w + [t[0]] + t[1..];
      TokenLengthOfPrefix(w, t[0], t[1..]);
    }
    assert s[0] == w[0];
    assert s[..|w|] == w;
    assert s[|w|..] == t;
  }

  lemma InterleaveHead(gaps: seq<string>, ws: seq<string>)
    requires |gaps| == |ws| + 1 && IsBlank(gaps[0]) && (|ws| == 0 || |gaps[0]| > 0)
    ensures |Interleave(gaps, ws)| == 0 || IsSpace(Interleave(gaps, ws)[0])
  {
    if |ws| > 0 {
      assert Interleave(gaps, ws)[0] == gaps[0][0];
    }
  }

  /** Dropping the first token and the gap before it leaves separators
      for the rest. */
  lemma InterleaveTail(gaps: seq<string>, ws: seq<string>)
    requires AllTokens(ws) && Separators(gaps, |ws|) && |ws| > 0
    ensures AllTokens(ws[1..]) && Separators(gaps[1..], |ws| - 1)
    ensures |ws| > 1 ==> |gaps[1..][0]| > 0
  {
    var g := gaps[1..];
    forall i | 0 <= i < |g| ensures IsBlank(g[i]) { assert g[i] == gaps[i + 1]; }
    forall i | 0 < i < |ws| - 1 ensures |g[i]| > 0 { assert g[i] == gaps[i + 1]; }
    forall i | 0 <= i < |ws| - 1 ensures IsToken(ws[1..][i]) { assert ws[1..][i] == ws[i + 1]; }
  }

  /** Tokens separated by any whitespace split back into the tokens. */
  lemma {:induction false} WordsOfInterleave(gaps: seq<string>, ws: seq<string>)
    requires AllTokens(ws) && Separators(gaps, |ws|)
    ensures Words(Interleave(gaps, ws)) == ws
    decreases |ws|
  {
    if |ws| == 0 {
      WordsOfBlankPrefix(gaps[0], "");
      assert gaps[0] + "" == gaps[0];
    } else {
      var g := gaps[1..];
      var rest := Interleave(g, ws[1..]);
      InterleaveTail(gaps, ws);
      WordsOfInterleave(g, ws[1..]);
      InterleaveHead(g, ws[1..]);
      assert IsToken(ws[0]);
      WordsOfTokenHead(ws[0], rest);
      assert Interleave(gaps, ws) == gaps[0] + (ws[0] + rest);
      WordsOfBlankPrefix(gaps[0], ws[0] + rest);
      assert [ws[0]] + ws[1..] == ws;
    }
  }

  /** Every string is its tokens interleaved with whitespace runs. */
  lemma {:induction false} WordsGaps(s: string) returns (gaps: seq<string>)
    ensures Separators(gaps, |Words(s)|) && s == Interleave(gaps, Words(s))
    decreases |s|
  {
    if |s| == 0 {
      gaps := [""];
    } else if IsSpace(s[0]) {
      var g := WordsGaps(s[1..]);
      gaps := GapsOfSpaceHead(s, g);
    } else {
      var g := WordsGaps(s[TokenLength(s)..]);
      gaps := GapsOfTokenHead(s, g);
    }
  }

  /** A leading whitespace character joins the first gap. */
  lemma GapsOfSpaceHead(s: string, g: seq<string>) returns (gaps: seq<string>)
    requires |s| > 0 && IsSpace(s[0])
    requires Separators(g, |Words(s[1..])|) && s[1..] == Interleave(g, Words(s[1..]))
    ensures Separators(gaps, |Words(s)|) && s == Interleave(gaps, Words(s))
  {
    var ws := Words(s[1..]);
    assert Words(s) == ws;
    gaps := [[s[0]] + g[0]] + g[1..];
    BlankCons(s[0], g[0]);
    assert forall i :: 0 < i < |gaps| ==> gaps[i] == g[i];
    InterleaveConsGap(s[0], g, ws);
    assert s == [s[0]] + s[1..];
  }

  /** A leading token is preceded by an empty gap, and the gap after it
      is non-empty when another token follows. */
  lemma GapsOfTokenHead(s: string, g: seq<string>) returns (gaps: seq<string>)
    requires |s| > 0 && !IsSpace(s[0])
    requires Separators(g, |Words(s[TokenLength(s)..])|)
    requires s[TokenLength(s)..] == Interleave(g, Words(s[TokenLength(s)..]))
    ensures Separators(gaps, |Words(s)|) && s == Interleave(gaps, Words(s))
  {
    var n := TokenLength(s);
    var ws := Words(s[n..]);
    assert Words(s) == [s[..n]] + ws;
    GapAfterToken(s, g);
    PrependToken(s[..n], s[n..], g, ws);
    assert s[..n] + s[n..] == s;
    gaps := [""] + g;
  }

  /** Separators for a token put in front: an empty gap before it. */
  lemma PrependToken(w: string, t: string, g: seq<string>, ws: seq<string>)
    requires Separators(g, |ws|) && t == Interleave(g, ws)
    requires |ws| > 0 ==> |g[0]| > 0
    ensures Separators([""] + g, |ws| + 1) && w + t == Interleave([""] + g, [w] + ws)
  {
    var gaps := [""] + g;
    assert forall i :: 0 < i < |gaps| ==> gaps[i] == g[i - 1];
    InterleaveConsToken(w, g, ws);
  }

  /** What follows a leading token starts with whitespace, so its first
      gap is non-empty when it holds a token. */
  lemma GapAfterToken(s: string, g: seq<string>)
    requires |s| > 0 && !IsSpace(s[0])
    requires |g| == |Words(s[TokenLength(s)..])| + 1
    requires s[TokenLength(s)..] == Interleave(g, Words(s[TokenLength(s)..]))
    ensures |Words(s[TokenLength(s)..])| > 0 ==> |g[0]| > 0
  {
    var n := TokenLength(s);
    var ws := Words(s[n..]);
    if |ws| > 0 {
      InterleaveHeadToken(g, ws);
      assert IsSpace(s[n]);
    }
  }

  lemma InterleaveConsToken(w: string, g: seq<string>, ws: seq<string>)
    requires |g| == |ws| + 1
    ensures Interleave([""] + g, [w] + ws) == w + Interleave(g, ws)
  {
    assert ([""] + g)[1..] == g;
    assert ([w] + ws)[1..] == ws;
    assert "" + w == w;
  }

  lemma InterleaveConsGap(c: char, g: seq<string>, ws: seq<string>)
    requires |g| == |ws| + 1
    ensures Interleave([[c] + g[0]] + g[1..], ws) == [c] + Interleave(g, ws)
  {
    var h := [[c] + g[0]] + g[1..];
    assert h[1..] == g[1..];
    if |ws| > 0 {
      assert Interleave(h, ws) == [c] + g[0] + ws[0] + Interleave(g[1..], ws[1..]);
    }
  }

  /** With an empty first gap, the string starts with the first token. */
  lemma InterleaveHeadToken(g: seq<string>, ws: seq<string>)
    requires |g| == |ws| + 1 && |ws| > 0 && |ws[0]| > 0
    ensures g[0] == "" ==> |Interleave(g, ws)| > 0 && Interleave(g, ws)[0] == ws[0][0]
  {
    if g[0] == "" {
      assert Interleave(g, ws) == ws[0] + Interleave(g[1..], ws[1..]);
    }
  }

  /** `str.split()` with no separator, characterised on all inputs: ws is
      the split of s exactly when ws are tokens and s is ws interleaved
      with whitespace runs (any mix of spaces, tabs and newlines), non-empty
      between two tokens. */
  lemma WordsCharacterized(s: string, ws: seq<string>)
    ensures Words(s) == ws <==> AllTokens(ws) && exists gaps :: Separators(gaps, |ws|) && s == Interleave(gaps, ws)
  {
    if Words(s) == ws {
      var gaps := WordsGaps(s);
    }
    if AllTokens(ws) && exists gaps :: Separators(gaps, |ws|) && s == Interleave(gaps, ws) {
      var gaps :| Separators(gaps, |ws|) && s == Interleave(gaps, ws);
      WordsOfInterleave(gaps, ws);
    }
  }

  /** Tabs and newlines separate tokens as spaces do, as in the text that
      the PDF and DOCX parsers return. */
  lemma WordsOfTabAndNewline()
    ensures Words("a\n\tb") == ["a", "b"]
  {
    var gaps := ["", "\n\t", ""];
    var ws := ["a", "b"];
    assert IsBlank(gaps[1]) by { assert IsSpace('\n') && IsSpace('\t'); }
    assert Separators(gaps, 2);
    assert AllTokens(ws) by { assert IsToken(ws[0]) && IsToken(ws[1]); }
    assert Interleave(gaps, ws) == "a\n\tb" by {
      assert Interleave(gaps[2..], ws[2..]) == "";
      assert Interleave(gaps[1..], ws[1..]) == "\n\tb";
    }
    WordsOfInterleave(gaps, ws);
  }
}
