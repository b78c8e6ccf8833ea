/** Worked inputs: the cases the repository's tests exercise, and the
    input that separates the tokenizer as written from the intended one. */
module Examples {
  import opened Chars
  import opened PhpStrings
  import opened Tokenizer
  import opened Vectorizer
  import opened Cosine

  lemma KeepSingle(t: string)
    ensures Keep([t]) == if Survives(t) then [t] else []
  {
    assert [t][..0] == [];
  }

  /** With the `u` flag on the replacement only, a no-break space (U+00A0)
      is neither replaced nor split on, so it stays inside a token that is
      not a term. */
  lemma AsWrittenKeepsNoBreakSpace()
    ensures TokensAsWritten("abc\U{00A0}def") == ["abc\U{00A0}def"]
    ensures !IsTerm("abc\U{00A0}def")
  {
    var t := "abc\U{00A0}def";
    assert forall c :: c in t ==> c in "abcdef\U{00A0}";
    OneWordAsWritten(t);
    KeepSingle(t);
    assert !IsLowerAlnum(t[3]);
  }

  /** A lower-case text whose characters are all outside the replacement
      class and outside ASCII whitespace is a single part. */
  lemma OneWordAsWritten(t: string)
    requires t != [] && !IsTrimmed(t[0]) && !IsTrimmed(t[|t| - 1])
    requires forall c :: c in t ==> !IsUpper(c) && !IsSeparatorAsWritten(c) && !IsAsciiSpace(c)
    ensures PartsWith(t, IsSeparatorAsWritten) == [t]
  {
    assert Lower(t) == t;
    ReplaceRunsUnchanged(t, IsSeparatorAsWritten);
    TrimUnchanged(t);
    SplitUnbroken(t, IsAsciiSpace);
  }

  /** With ASCII whitespace on both steps, the no-break space separates two
      terms. */
  lemma NoBreakSpaceSeparates()
    ensures Tokens("abc\U{00A0}def") == ["abc", "def"]
  {
    assert "abc\U{00A0}def" == "abc" + ['\U{00A0}'] + "def";
    assert forall c :: c in "abc" ==> c == 'a' || c == 'b' || c == 'c';
    assert forall c :: c in "def" ==> c == 'd' || c == 'e' || c == 'f';
    assert !IsDigit("abc"[0]) && !IsDigit("def"[0]);
    TermsAroundSeparator("abc", '\U{00A0}', "def");
  }

  /** Two terms joined by one separator character that is not an upper-case
      letter are the two tokens. */
  lemma TermsAroundSeparator(a: string, sep: char, b: string)
    requires IsTerm(a) && IsTerm(b) && IsSeparator(sep) && !IsUpper(sep)
    ensures Tokens(a + [sep] + b) == [a, b]
  {
    var t := a + [sep] + b;
    assert Parts(t) == [a, b] by {
      LowerUnchanged(t);
      TermsAroundSeparatorReplaced(a, sep, b);
      TermsAroundSpaceSplit(a, b);
    }
    KeepAll([a, b]);
  }

  lemma TermsAroundSpaceSplit(a: string, b: string)
    requires IsTerm(a) && IsTerm(b)
    ensures Split(Trim(a + " " + b), IsAsciiSpace) == [a, b]
  {
    var spaced := a + " " + b;
    assert a[0] in a && b[0] in b && b[|b| - 1] in b;
    TrimUnchanged(spaced);
    SplitAfterWord(a, " ", b, IsAsciiSpace);
    SplitUnbroken(b, IsAsciiSpace);
  }

  lemma TermsAroundSeparatorReplaced(a: string, sep: char, b: string)
    requires IsTerm(a) && IsTerm(b) && IsSeparator(sep)
    ensures ReplaceRuns(a + [sep] + b, IsSeparator) == a + " " + b
  {
    assert b[0] in b && a[|a| - 1] in a;
    ReplaceRunsJoin(a + [sep], b, IsSeparator);
    ReplaceRunsJoin(a, [sep], IsSeparator);
    ReplaceRunsUnchanged(a, IsSeparator);
    ReplaceRunsUnchanged(b, IsSeparator);
    ReplaceRunsOfRun([sep], IsSeparator, false);
  }

  /** Words, each followed by its punctuation mark, with a space after every
      mark but the last. */
  function Punctuated(words: seq<string>, marks: seq<char>): string
    requires |marks| == |words|
  {
    if words == [] then []
    else if |words| == 1 then words[0] + [marks[0]]
    else words[0] + [marks[0], ' '] + Punctuated(words[1..], marks[1..])
  }

  /** A term followed by a mark becomes the term and a space. */
  lemma ReplaceTermMark(w: string, mark: char)
    requires IsTerm(w) && IsSeparator(mark)
    ensures ReplaceRuns(w + [mark], IsSeparator) == w + " "
  {
    TermEnds(w);
    ReplaceRunsUnchanged(w, IsSeparator);
    ReplaceRunsOfRun([mark], IsSeparator, false);
    ReplaceRunsJoin(w, [mark], IsSeparator);
  }

  /** After a term and its mark, a space opens a new part of the
      replacement. */
  lemma ReplaceTermMarkSpace(w: string, mark: char, rest: string)
    requires IsTerm(w) && IsSeparator(mark)
    ensures ReplaceRuns((w + [mark]) + ([' '] + rest), IsSeparator)
         == (w + " ") + ([' '] + ReplaceRuns(rest, IsSeparator))
  {
    ReplaceTermMark(w, mark);
    ReplaceRunsKeepsPrefix([' '], rest, IsSeparator, false);
    ReplaceRunsJoin(w + [mark], [' '] + rest, IsSeparator);
  }

  /** Replacing the punctuation marks leaves the terms joined by two spaces,
      and one space at the end. */
  lemma {:induction false} ReplacePunctuated(words: seq<string>, marks: seq<char>)
    requires words != [] && |marks| == |words| && AllTerms(words)
    requires forall i :: 0 <= i < |marks| ==> IsSeparator(marks[i])
    ensures ReplaceRuns(Punctuated(words, marks), IsSeparator) == Joined(words, "  ") + " "
  {
    var w, mark := words[0], marks[0];
    if |words| == 1 {
      ReplaceTermMark(w, mark);
    } else {
      var rest := Punctuated(words[1..], marks[1..]);
      ReplacePunctuated(words[1..], marks[1..]);
      ReplaceTermMarkSpace(w, mark, rest);
      assert Punctuated(words, marks) == (w + [mark]) + ([' '] + rest);
      assert Joined(words, "  ") + " " == (w + " ") + ([' '] + (Joined(words[1..], "  ") + " "));
    }
  }

  /** Terms followed by punctuation marks (and a space after all but the
      last mark) are the tokens. */
  lemma TokensPunctuated(words: seq<string>, marks: seq<char>)
    requires words != [] && |marks| == |words| && AllTerms(words)
    requires forall i :: 0 <= i < |marks| ==> IsSeparator(marks[i]) && !IsUpper(marks[i])
    ensures Tokens(Punctuated(words, marks)) == words
  {
    var t := Punctuated(words, marks);
    PunctuatedChars(words, marks);
    LowerUnchanged(t);
    PunctuatedCleaned(words, marks);
    SplitJoined(words, "  ");
    KeepAll(words);
  }

  lemma PunctuatedCleaned(words: seq<string>, marks: seq<char>)
    requires words != [] && |marks| == |words| && AllTerms(words)
    requires forall i :: 0 <= i < |marks| ==> IsSeparator(marks[i])
    ensures Trim(ReplaceRuns(Punctuated(words, marks), IsSeparator)) == Joined(words, "  ")
  {
    var joined := Joined(words, "  ");
    ReplacePunctuated(words, marks);
    JoinedEnds(words, "  ");
    TrimAround([], joined, " ");
    assert [] + joined + " " == joined + " ";
  }

  lemma {:induction false} PunctuatedChars(words: seq<string>, marks: seq<char>)
    requires |marks| == |words| && AllTerms(words)
    requires forall i :: 0 <= i < |marks| ==> !IsUpper(marks[i])
    ensures forall c :: c in Punctuated(words, marks) ==> !IsUpper(c)
  {
    if words != [] {
      assert forall c :: c in words[0] ==> IsLowerAlnum(c);
      if |words| > 1 {
        PunctuatedChars(words[1..], marks[1..]);
      }
    }
  }

  lemma JoinedThree(a: string, b: string, c: string, gap: string)
    ensures Joined([a, b, c], gap) == a + gap + b + gap + c
  {
    assert [a, b, c][1..] == [b, c];
    assert [b, c][1..] == [c];
    assert Joined([c], gap) == c;
    assert Joined([b, c], gap) == b + gap + c;
    assert a + gap + (b + gap + c) == a + gap + b + gap + c;
  }

  lemma PunctuatedThree(a: string, b: string, c: string, ma: char, mb: char, mc: char)
    ensures Punctuated([a, b, c], [ma, mb, mc]) == a + [ma, ' '] + b + [mb, ' '] + c + [mc]
  {
    assert [a, b, c][1..] == [b, c] && [ma, mb, mc][1..] == [mb, mc];
    assert [b, c][1..] == [c] && [mb, mc][1..] == [mc];
    assert Punctuated([c], [mc]) == c + [mc];
    assert Punctuated([b, c], [mb, mc]) == b + [mb, ' '] + (c + [mc]);
    assert a + [ma, ' '] + (b + [mb, ' '] + (c + [mc])) == a + [ma, ' '] + b + [mb, ' '] + c + [mc];
  }

  lemma TestWordsAreTerms()
    ensures AllTerms(["laravel", "php", "aws"])
  {
    var words := ["laravel", "php", "aws"];
    assert forall c :: c in words[0] ==> c in "laver";
    assert forall c :: c in words[1] ==> c in "ph";
    assert forall c :: c in words[2] ==> c in "aws";
    assert !IsDigit(words[0][0]) && !IsDigit(words[1][0]) && !IsDigit(words[2][0]);
  }

  lemma TestMarksAreSeparators()
    ensures forall i :: 0 <= i < 3 ==> IsSeparator([',', ';', '!'][i]) && !IsUpper([',', ';', '!'][i])
  {
    var marks := [',', ';', '!'];
    assert IsSeparator(marks[0]) && IsSeparator(marks[1]) && IsSeparator(marks[2]);
  }

  /** The punctuated side of the normalization test. */
  lemma PunctuatedTestTokens()
    ensures Tokens("Laravel, PHP; AWS!") == ["laravel", "php", "aws"]
  {
    PunctuatedTestLowered();
    PunctuatedTestWords();
    TokensIgnoreCase("Laravel, PHP; AWS!");
  }

  lemma PunctuatedTestLowered()
    ensures Lower("Laravel, PHP; AWS!") == Punctuated(["laravel", "php", "aws"], [',', ';', '!'])
  {
    PunctuatedThree("laravel", "php", "aws", ',', ';', '!');
  }

  lemma PunctuatedTestWords()
    ensures Tokens(Punctuated(["laravel", "php", "aws"], [',', ';', '!'])) == ["laravel", "php", "aws"]
  {
    TestWordsAreTerms();
    TestMarksAreSeparators();
    TokensPunctuated(["laravel", "php", "aws"], [',', ';', '!']);
  }

  /** The plain side of the normalization test. */
  lemma SpacedTestTokens()
    ensures Tokens("laravel php aws") == ["laravel", "php", "aws"]
  {
    var words := ["laravel", "php", "aws"];
    TestWordsAreTerms();
    assert "laravel php aws" == Joined(words, " ") by {
      JoinedThree("laravel", "php", "aws", " ");
    }
    TokensJoined(words);
  }

  /** The normalization test: "Laravel, PHP; AWS!" and "laravel php aws"
      have the same tokens, so they score 1 against each other. */
  lemma CaseAndPunctuationIgnored()
    ensures TokensAsWritten("Laravel, PHP; AWS!") == TokensAsWritten("laravel php aws") == ["laravel", "php", "aws"]
    ensures var s := CosineScore("Laravel, PHP; AWS!", "laravel php aws");
      s.Ratio? && s.dot == s.leftMagnitudeSquared == s.rightMagnitudeSquared
  {
    assert TokensAsWritten("Laravel, PHP; AWS!") == ["laravel", "php", "aws"] by {
      PunctuatedTestTokens();
      PunctuatedTestNarrow();
      TokensAgree("Laravel, PHP; AWS!");
    }
    assert TokensAsWritten("laravel php aws") == ["laravel", "php", "aws"] by {
      SpacedTestTokens();
      SpacedTestNarrow();
      TokensAgree("laravel php aws");
    }
    SameTokensScoreOne("Laravel, PHP; AWS!", "laravel php aws");
  }

  lemma PunctuatedTestNarrow()
    ensures NoWideSpace("Laravel, PHP; AWS!")
  {
    assert forall c :: c in "Laravel, PHP; AWS!" ==> c < '\U{0080}';
  }

  lemma SpacedTestNarrow()
    ensures NoWideSpace("laravel php aws")
  {
    assert forall c :: c in "laravel php aws" ==> c < '\U{0080}';
  }
}
