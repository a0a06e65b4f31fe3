/** Worked instances of `clean_text` and `remove_stopwords`, derived from
    the general lemmas of DocumentProcessor: the sanitised text is written
    as a join of its whitespace-separated pieces, and each piece's fate
    under the digit-run rule is settled on its own. */
module CleanTextExamples {
  import opened PythonStr
  import opened DocumentProcessor

  /** When the lower-cased, sanitised text is the single-space join of
      spaceless pieces (an empty piece standing for a doubled space),
      `clean_text` keeps the non-empty pieces, drops their bounded digit
      runs and joins what is left. */
  lemma CleanTextOfPieces(text: string, vs: seq<string>)
    requires AllSpaceless(vs)
    requires Sanitize(Lower(text)) == Join(vs)
    ensures CleanText(text) == Join(NonEmpty(DropNumbersEach(NonEmpty(vs))))
  {
    CleanTextTokens(text);
    WordsOfJoin(vs);
  }

  /** A non-empty run of lower-case letters. */
  predicate LetterWord(w: string)
  {
    |w| > 0 && forall i :: 0 <= i < |w| ==> 'a' <= w[i] <= 'z'
  }

  /** A non-empty run of digits. */
  predicate Numeral(w: string)
  {
    |w| > 0 && forall i :: 0 <= i < |w| ==> IsDigit(w[i])
  }

  function LetterWords(vs: seq<string>): (ws: seq<string>)
  {
    if |vs| == 0 then []
    else (if LetterWord(vs[0]) then [vs[0]] else []) + LetterWords(vs[1..])
  }

  /** On pieces that are empty, numerals or letter words, the token view
      of `clean_text` keeps exactly the letter words. */
  lemma {:induction false} TokensOfLettersAndNumerals(vs: seq<string>)
    requires forall i :: 0 <= i < |vs| ==> vs[i] == "" || Numeral(vs[i]) || LetterWord(vs[i])
    ensures NonEmpty(DropNumbersEach(NonEmpty(vs))) == LetterWords(vs)
    decreases |vs|
  {
    if |vs| > 0 {
      TokensOfLettersAndNumerals(vs[1..]);
      var v := vs[0];
      var rest := NonEmpty(vs[1..]);
      if v == "" {
        assert NonEmpty(vs) == rest;
      } else {
        assert NonEmpty(vs) == [v] + rest;
        assert DropNumbersEach([v] + rest) == [DropNumbers(v, false)] + DropNumbersEach(rest) by {
          assert ([v] + rest)[1..] == rest;
        }
        var d := DropNumbers(v, false);
        var tail := DropNumbersEach(rest);
        if Numeral(v) {
          DropAllDigits(v);
          assert NonEmpty([d] + tail) == NonEmpty(tail) by { assert ([d] + tail)[1..] == tail; }
        } else {
          assert !IsDigit(v[0]);
          DropKeepsAlphanumericWord(v);
          assert NonEmpty([d] + tail) == [v] + NonEmpty(tail) by { assert ([d] + tail)[1..] == tail; }
        }
      }
    }
  }

  /** `clean_text` of a text whose sanitised form splits into empty
      pieces, numerals and letter words is the letter words joined. */
  lemma CleanTextOfLettersAndNumerals(text: string, vs: seq<string>)
    requires forall i :: 0 <= i < |vs| ==> vs[i] == "" || Numeral(vs[i]) || LetterWord(vs[i])
    requires Sanitize(Lower(text)) == Join(vs)
    ensures CleanText(text) == Join(LetterWords(vs))
  {
    assert AllSpaceless(vs) by {
      forall i, j | 0 <= i < |vs| && 0 <= j < |vs[i]| ensures !IsSpace(vs[i][j]) {
        if Numeral(vs[i]) { assert IsDigit(vs[i][j]); }
      }
    }
    CleanTextOfPieces(text, vs);
    TokensOfLettersAndNumerals(vs);
  }

  lemma HelloWorldSanitized()
    ensures Sanitize(Lower("Hello World")) == Join(["hello", "world"])
  {
    SanitizeLowerAppend("Hello", " World");
    SanitizeLowerAppend(" ", "World");
    assert Lower("Hello") == "hello";
    assert Lower("World") == "world";
    assert Sanitize(Lower(" ")) == " " by { assert Lower(" ")[0] == ' '; }
    CleanCharsFixed("hello");
    CleanCharsFixed("world");
    assert "Hello World" == "Hello" + (" " + "World");
  }

  /** Lower-casing: `clean_text("Hello World") == "hello world"`. */
  lemma HelloWorld()
    ensures CleanText("Hello World") == "hello world"
  {
    var vs := ["hello", "world"];
    HelloWorldSanitized();
    HelloWorldLetterWords();
    CleanTextOfLettersAndNumerals("Hello World", vs);
    HelloWorldJoined();
  }

  lemma HelloWorldLetterWords()
    ensures forall i :: 0 <= i < 2 ==> LetterWord(["hello", "world"][i])
    ensures LetterWords(["hello", "world"]) == ["hello", "world"]
  {
    var vs := ["hello", "world"];
    assert LetterWord(vs[0]) && LetterWord(vs[1]);
    assert vs[1..][1..] == [];
  }

  lemma HelloWorldJoined()
    ensures Join(["hello", "world"]) == "hello world"
  {
    assert ["hello", "world"][1..] == ["world"];
  }

  /** A word made of `[a-z0-9.]` passes steps 1 and 2 unchanged. */
  lemma CleanCharsFixed(w: string)
    requires forall i :: 0 <= i < |w| ==> IsCleanChar(w[i])
    ensures Sanitize(Lower(w)) == w
  {
  }

  lemma Python3Kept()
    ensures DropNumbers("python3", false) == "python3"
  {
    var w := "python3";
    assert !IsDigit(w[0]);
    DropKeepsAlphanumericWord(w);
  }

  /** A digit run that touches a letter is kept. */
  lemma Python3()
    ensures CleanText("python3") == "python3"
  {
    var vs := ["python3"];
    CleanCharsFixed("python3");
    CleanTextOfPieces("python3", vs);
    Python3Kept();
    assert NonEmpty(vs) == vs;
  }

  lemma DecimalNumberDropped()
    ensures DropNumbers("3.5", false) == "."
  {
    var s := "3.5";
    assert DigitRunLength(s) == 1 by {
      assert DigitRunLength(s[1..]) == 0;
    }
    assert DropNumbers(s[1..], true) == "." by {
      assert s[1..][1..] == "5";
      assert DigitRunLength("5") == 1;
      assert DropNumbers("5", false) == "";
    }
  }

  /** A dot is not a word character, so both digits of a decimal number
      are deleted and the dot stays. */
  lemma DecimalNumber()
    ensures CleanText("3.5") == "."
  {
    var vs := ["3.5"];
    CleanCharsFixed("3.5");
    CleanTextOfPieces("3.5", vs);
    assert NonEmpty(vs) == vs;
    DecimalNumberDropped();
    assert DropNumbersEach(vs) == ["."];
  }

  /** Steps 1 and 2 of `clean_text` act character by character, so they
      distribute over concatenation. */
  lemma SanitizeLowerAppend(a: string, b: string)
    ensures Sanitize(Lower(a + b)) == Sanitize(Lower(a)) + Sanitize(Lower(b))
  {
    var l, r := Sanitize(Lower(a + b)), Sanitize(Lower(a)) + Sanitize(Lower(b));
    forall i | 0 <= i < |l| ensures l[i] == r[i] {
      if i < |a| { assert (a + b)[i] == a[i]; } else { assert (a + b)[i] == b[i - |a|]; }
    }
  }

  function SanitizeEach(ts: seq<string>): (us: seq<string>)
    ensures |us| == |ts|
    ensures forall i :: 0 <= i < |ts| ==> us[i] == Sanitize(Lower(ts[i]))
  {
    seq(|ts|, i requires 0 <= i < |ts| => Sanitize(Lower(ts[i])))
  }

  /** Sanitising a space-joined text sanitises each piece. */
  lemma {:induction false} SanitizeLowerJoin(ts: seq<string>)
    ensures Sanitize(Lower(Join(ts))) == Join(SanitizeEach(ts))
    decreases |ts|
  {
    if |ts| >= 2 {
      SanitizeLowerJoin(ts[1..]);
      assert SanitizeEach(ts)[1..] == SanitizeEach(ts[1..]);
      SanitizeLowerAppend(ts[0] + " ", Join(ts[1..]));
      SanitizeLowerAppend(ts[0], " ");
      assert Sanitize(Lower(" ")) == " " by { assert Lower(" ")[0] == ' '; }
    }
  }

  lemma JoinCons(w: string, ws: seq<string>)
    requires |ws| > 0
    ensures Join([w] + ws) == w + " " + Join(ws)
  {
    assert ([w] + ws)[1..] == ws;
  }

  /** Words made of `[a-z0-9.]` pass steps 1 and 2 unchanged. */
  lemma SanitizeFixedWords(ws: seq<string>)
    requires forall i :: 0 <= i < |ws| ==> forall j :: 0 <= j < |ws[i]| ==> IsCleanChar(ws[i][j])
    ensures SanitizeEach(ws) == ws
  {
    forall i | 0 <= i < |ws| ensures SanitizeEach(ws)[i] == ws[i] {
      CleanCharsFixed(ws[i]);
    }
  }

  lemma SanitizeEachAppend(a: seq<string>, b: seq<string>)
    ensures SanitizeEach(a + b) == SanitizeEach(a) + SanitizeEach(b)
  {
  }

  lemma {:induction false} LetterWordsAppend(a: seq<string>, b: seq<string>)
    ensures LetterWords(a + b) == LetterWords(a) + LetterWords(b)
    decreases |a|
  {
    if |a| == 0 {
      assert a + b == b;
    } else {
      LetterWordsAppend(a[1..], b);
      assert (a + b)[0] == a[0];
      assert (a + b)[1..] == a[1..] + b;
    }
  }

  /** The sentence "5 years of experience with 3+ projects", as the
      single-space join of its words: a clean lead of five words, then
      "3+" and "projects". */
  const YearsLead := ["5", "years", "of", "experience", "with"]
  const YearsWords := YearsLead + ["3+", "projects"]
  const YearsPieces := YearsLead + ["3", "", "projects"]
  const YearsKept := ["years", "of", "experience", "with", "projects"]

  lemma YearsLeadClean()
    ensures forall i :: 0 <= i < |YearsLead| ==> forall j :: 0 <= j < |YearsLead[i]| ==> IsCleanChar(YearsLead[i][j])
  {
    forall i | 0 <= i < |YearsLead| ensures forall j :: 0 <= j < |YearsLead[i]| ==> IsCleanChar(YearsLead[i][j]) {
      if i == 0 { CleanWord5(); }
      else if i == 1 { CleanWordYears(); }
      else if i == 2 { CleanWordOf(); }
      else if i == 3 { CleanWordExperience(); }
      else { CleanWordWith(); }
    }
  }

  lemma CleanWord5() ensures LetterWord("5") || Numeral("5") { }
  lemma CleanWordYears() ensures LetterWord("years") { }
  lemma CleanWordOf() ensures LetterWord("of") { }
  lemma CleanWordExperience() ensures LetterWord("experience") { }
  lemma CleanWordWith() ensures LetterWord("with") { }
  lemma CleanWordProjects() ensures LetterWord("projects") { }

  /** The `+` becomes a space. */
  lemma ThreePlusSanitized()
    ensures SanitizeEach(["3+", "projects"]) == ["3 ", "projects"]
  {
    var us := SanitizeEach(["3+", "projects"]);
    assert Lower("3+") == "3+";
    assert Sanitize("3+") == "3 " by {
      assert Sanitize("3+")[0] == '3' && Sanitize("3+")[1] == ' ';
    }
    assert us[0] == "3 ";
    CleanWordProjects();
    CleanCharsFixed("projects");
    assert us[1] == "projects";
  }

  /** The space left by the `+` reads, in the joined text, as an empty
      piece between "3" and "projects". */
  lemma ThreeSpaceJoin()
    ensures Join(["3 ", "projects"]) == Join(["3", "", "projects"])
  {
    JoinCons("3", ["", "projects"]);
    JoinCons("", ["projects"]);
    JoinCons("3 ", ["projects"]);
  }

  /** Steps 1 and 2 turn the sentence into the join of YearsPieces. */
  lemma YearsPiecesSanitized()
    ensures Sanitize(Lower(Join(YearsWords))) == Join(YearsPieces)
  {
    SanitizeLowerJoin(YearsWords);
    SanitizeEachAppend(YearsLead, ["3+", "projects"]);
    YearsLeadClean();
    SanitizeFixedWords(YearsLead);
    ThreePlusSanitized();
    ThreeSpaceJoin();
    JoinPrefix(YearsLead, ["3 ", "projects"], ["3", "", "projects"]);
  }

  /** Joins that agree after a common prefix agree. */
  lemma {:induction false} JoinPrefix(p: seq<string>, a: seq<string>, b: seq<string>)
    requires |a| > 0 && |b| > 0 && Join(a) == Join(b)
    ensures Join(p + a) == Join(p + b)
    decreases |p|
  {
    if |p| > 0 {
      JoinPrefix(p[1..], a, b);
      assert (p + a)[1..] == p[1..] + a;
      assert (p + b)[1..] == p[1..] + b;
      JoinCons(p[0], p[1..] + a);
      JoinCons(p[0], p[1..] + b);
      assert p + a == [p[0]] + (p[1..] + a);
      assert p + b == [p[0]] + (p[1..] + b);
    } else {
      assert p + a == a && p + b == b;
    }
  }

  lemma YearsPiecesShapes()
    ensures forall i :: 0 <= i < |YearsPieces| ==> YearsPieces[i] == "" || Numeral(YearsPieces[i]) || LetterWord(YearsPieces[i])
  {
    forall i | 0 <= i < |YearsPieces| ensures YearsPieces[i] == "" || Numeral(YearsPieces[i]) || LetterWord(YearsPieces[i]) {
      if i == 0 { CleanWord5(); }
      else if i == 1 { CleanWordYears(); }
      else if i == 2 { CleanWordOf(); }
      else if i == 3 { CleanWordExperience(); }
      else if i == 4 { CleanWordWith(); }
      else if i == 5 { assert Numeral("3"); }
      else if i == 7 { CleanWordProjects(); }
    }
  }

  lemma YearsLeadLetterWords()
    ensures LetterWords(YearsLead) == YearsLead[1..]
  {
    var vs := YearsLead;
    CleanWordWith();
    CleanWordExperience();
    CleanWordOf();
    CleanWordYears();
    assert LetterWords(vs[4..]) == vs[4..] by { assert vs[4..][1..] == []; }
    assert LetterWords(vs[3..]) == vs[3..] by { assert vs[3..][1..] == vs[4..]; }
    assert LetterWords(vs[2..]) == vs[2..] by { assert vs[2..][1..] == vs[3..]; }
    assert LetterWords(vs[1..]) == vs[1..] by { assert vs[1..][1..] == vs[2..]; }
    assert !LetterWord(vs[0]) by { assert "5"[0] == '5'; }
  }

  lemma YearsTailLetterWords()
    ensures LetterWords(["3", "", "projects"]) == ["projects"]
  {
    var vs := ["3", "", "projects"];
    CleanWordProjects();
    assert LetterWords(vs[2..]) == ["projects"] by { assert vs[2..][1..] == []; }
    assert LetterWords(vs[1..]) == ["projects"] by { assert vs[1..][1..] == vs[2..]; }
    assert !LetterWord(vs[0]) by { assert "3"[0] == '3'; }
  }

  lemma YearsPiecesLetterWords()
    ensures LetterWords(YearsPieces) == YearsKept
  {
    LetterWordsAppend(YearsLead, ["3", "", "projects"]);
    YearsLeadLetterWords();
    YearsTailLetterWords();
  }

  /** Stand-alone numbers and the `+` sign go; the words stay:
      `clean_text("5 years of experience with 3+ projects")` is
      "years of experience with projects". */
  lemma YearsOfExperience()
    ensures CleanText(Join(YearsWords)) == Join(YearsKept)
  {
    YearsPiecesSanitized();
    YearsPiecesShapes();
    CleanTextOfLettersAndNumerals(Join(YearsWords), YearsPieces);
    YearsPiecesLetterWords();
  }

  const FoxWords := ["The", "quick", "brown", "fox"]

  lemma FoxWordsRoundTrip()
    ensures Words(Join(FoxWords)) == FoxWords
  {
    var vs := FoxWords;
    assert AllTokens(vs) by {
      assert IsToken(vs[0]) && IsToken(vs[1]) && IsToken(vs[2]) && IsToken(vs[3]);
    }
    WordsJoinRoundTrip(vs);
  }

  lemma FoxContentWords()
    ensures ContentWords(FoxWords) == FoxWords[1..]
  {
    var vs := FoxWords;
    assert IsStopword("The") by { assert Lower("The") == "the"; }
    assert !IsStopword("quick") by { assert Lower("quick") == "quick"; }
    assert !IsStopword("brown") by { assert Lower("brown") == "brown"; }
    assert !IsStopword("fox") by { assert Lower("fox") == "fox"; }
    assert ContentWords(vs[3..]) == vs[3..] by { assert vs[3..][1..] == []; }
    assert ContentWords(vs[2..]) == vs[2..] by { assert vs[2..][1..] == vs[3..]; }
    assert ContentWords(vs[1..]) == vs[1..] by { assert vs[1..][1..] == vs[2..]; }
  }

  /** `remove_stopwords("The quick brown fox")` drops "The" (compared
      lower-cased) and keeps the rest in order. */
  lemma QuickBrownFox()
    ensures RemoveStopwords(Join(["The", "quick", "brown", "fox"])) == Join(["quick", "brown", "fox"])
  {
    FoxWordsRoundTrip();
    FoxContentWords();
    assert FoxWords[1..] == ["quick", "brown", "fox"];
  }

  const JumpsLead := ["the", "quick", "brown", "fox"]
  const JumpsMiddle := ["jumps", "over"]
  const JumpsTail := ["the", "lazy", "dog"]

  /** The words of the stopword test's sentence
      "the quick brown fox jumps over the lazy dog". */
  const JumpsWords := JumpsLead + JumpsMiddle + JumpsTail
  const JumpsKept := ["quick", "brown", "fox", "jumps", "over", "lazy", "dog"]

  lemma JumpsWordsRoundTrip()
    ensures Words(Join(JumpsWords)) == JumpsWords
  {
    var vs := JumpsWords;
    assert AllTokens(vs) by {
      assert IsToken(vs[0]) && IsToken(vs[1]) && IsToken(vs[2]) && IsToken(vs[3]) && IsToken(vs[4]);
      assert IsToken(vs[5]) && IsToken(vs[6]) && IsToken(vs[7]) && IsToken(vs[8]);
    }
    WordsJoinRoundTrip(vs);
  }

  lemma JumpsLeadContentWords()
    ensures ContentWords(JumpsLead) == ["quick", "brown", "fox"]
  {
    var vs := JumpsLead;
    assert IsStopword("the") by { assert Lower("the") == "the"; }
    assert !IsStopword("quick") by { assert Lower("quick") == "quick"; }
    assert !IsStopword("brown") by { assert Lower("brown") == "brown"; }
    assert !IsStopword("fox") by { assert Lower("fox") == "fox"; }
    assert ContentWords(vs[3..]) == ["fox"] by { assert vs[3..][1..] == []; }
    assert ContentWords(vs[2..]) == ["brown", "fox"] by { assert vs[2..][1..] == vs[3..]; }
    assert ContentWords(vs[1..]) == ["quick", "brown", "fox"] by { assert vs[1..][1..] == vs[2..]; }
  }

  lemma JumpsMiddleContentWords()
    ensures ContentWords(JumpsMiddle) == JumpsMiddle
  {
    var vs := JumpsMiddle;
    assert !IsStopword("jumps") by { assert Lower("jumps") == "jumps"; }
    assert !IsStopword("over") by { assert Lower("over") == "over"; }
    assert ContentWords(vs[1..]) == ["over"] by { assert vs[1..][1..] == []; }
  }

  lemma JumpsTailContentWords()
    ensures ContentWords(JumpsTail) == ["lazy", "dog"]
  {
    var vs := JumpsTail;
    assert IsStopword("the") by { assert Lower("the") == "the"; }
    assert !IsStopword("lazy") by { assert Lower("lazy") == "lazy"; }
    assert !IsStopword("dog") by { assert Lower("dog") == "dog"; }
    assert ContentWords(vs[2..]) == ["dog"] by { assert vs[2..][1..] == []; }
    assert ContentWords(vs[1..]) == ["lazy", "dog"] by { assert vs[1..][1..] == vs[2..]; }
  }

  lemma JumpsContentWords()
    ensures ContentWords(JumpsWords) == JumpsKept
  {
    ContentWordsAppend(JumpsLead + JumpsMiddle, JumpsTail);
    ContentWordsAppend(JumpsLead, JumpsMiddle);
    JumpsLeadContentWords();
    JumpsMiddleContentWords();
    JumpsTailContentWords();
    assert ["quick", "brown", "fox"] + JumpsMiddle + ["lazy", "dog"] == JumpsKept;
  }

  /** The sentence of the stopword test loses both "the"s and keeps every
      other word in order: `remove_stopwords` of "the quick brown fox jumps
      over the lazy dog" is "quick brown fox jumps over lazy dog". */
  lemma JumpsOverTheLazyDog()
    ensures RemoveStopwords(Join(JumpsWords)) == Join(JumpsKept)
  {
    JumpsWordsRoundTrip();
    JumpsContentWords();
  }
}
