/**
 * The repository's concrete pattern texts and user agents, stated as lemmas
 * about the model: the empty pattern text, a single pattern, the two-line
 * example with an anchored and a plain pattern, and the empty fragment on its
 * own.
 */
module BotGuardCases {
  import opened StdText
  import opened RegexModel
  import opened BotGuard

  /** An empty pattern text gives an empty set, whose matcher accepts only "". */
  lemma EmptyPatternText(userAgent: string)
    ensures ParseLines(AsciiLower("")) == {}
    ensures IsBotFor({}, userAgent) <==> userAgent == []
    ensures IsBotFor({}, "") && !IsBotFor({}, "1") && !IsBotFor({}, "Googlebot")
  {
    ToRegexMatchesIff({}, AsciiLower(userAgent));
    ToRegexMatchesIff({}, AsciiLower("1"));
    ToRegexMatchesIff({}, AsciiLower("Googlebot"));
  }

  /** A text of one non-blank line parses to that line. */
  lemma ParseOneLine(l: string)
    requires '\n' !in l && !IsBlank(l)
    ensures ParseLines(l) == {l}
  {
    assert l != [];
    LinesLast(l);
    forall x ensures x in ParseLines(l) <==> x == l {
      ParseLinesMember(l, x);
    }
  }

  /** A text opening with '\n' and holding two more lines splits into an empty line and those two. */
  lemma LinesOfBlankThenTwo(a: string, b: string)
    requires '\n' !in a && '\n' !in b && StripCr(a) == a && b != []
    ensures Lines("\n" + (a + "\n" + b)) == [[], a, b]
  {
    assert "\n" + (a + "\n" + b) == [] + "\n" + (a + "\n" + b);
    LinesCons([], a + "\n" + b);
    LinesCons(a, b);
    LinesLast(b);
  }

  /** A blank first line is dropped; two non-blank lines after it are kept. */
  lemma ParseBlankThenTwoLines(a: string, b: string)
    requires '\n' !in a && '\n' !in b
    requires !IsBlank(a) && !IsBlank(b) && StripCr(a) == a
    ensures ParseLines("\n" + (a + "\n" + b)) == {a, b}
  {
    var t := "\n" + (a + "\n" + b);
    assert b != [];
    LinesOfBlankThenTwo(a, b);
    forall x ensures x in ParseLines(t) <==> x == a || x == b {
      ParseLinesMember(t, x);
    }
  }

  /** Three lines, each ended by '\n', split back into those lines. */
  lemma LinesOfThree(a: string, b: string, c: string)
    requires '\n' !in a && '\n' !in b && '\n' !in c
    requires StripCr(a) == a && StripCr(b) == b && StripCr(c) == c
    ensures Lines(a + "\n" + (b + "\n" + (c + "\n"))) == [a, b, c]
  {
    assert c + "\n" == c + "\n" + [];
    LinesCons(c, []);
    LinesCons(b, c + "\n");
    LinesCons(a, b + "\n" + (c + "\n"));
  }

  /** A line given twice and a blank line, each ended by '\n', parse to the one line. */
  lemma ParseRepeatAndBlank(a: string, w: string)
    requires '\n' !in a && '\n' !in w && StripCr(a) == a && StripCr(w) == w
    requires !IsBlank(a) && IsBlank(w)
    ensures ParseLines(a + "\n" + (a + "\n" + (w + "\n"))) == {a}
  {
    var t := a + "\n" + (a + "\n" + (w + "\n"));
    LinesOfThree(a, a, w);
    forall x ensures x in ParseLines(t) <==> x == a {
      ParseLinesMember(t, x);
    }
  }

  /** The text "me" holds the one pattern "me". */
  lemma SinglePatternText()
    ensures ParseLines(AsciiLower("me")) == {"me"}
  {
    AsciiLowerByChars("me", "me");
    assert !IsBlank("me") by { assert "me"[0] in "me"; }
    ParseOneLine("me");
  }

  /** The pattern "me" matches neither "" nor "M". */
  lemma SinglePatternRejectsShort()
    ensures !IsBotFor({"me"}, "") && !IsBotFor({"me"}, "M")
  {
    ToRegexMatchesIff({"me"}, AsciiLower(""));
    ToRegexMatchesIff({"me"}, AsciiLower("M"));
    SubstringTooLong("me", AsciiLower("M"));
  }

  /** The pattern "me" matches "Me", whatever its case. */
  lemma SinglePatternAcceptsMe()
    ensures IsBotFor({"me"}, "Me")
  {
    ToRegexMatchesIff({"me"}, AsciiLower("Me"));
    AsciiLowerByChars("Me", "me");
    assert IsPrefix("me", "me");
  }

  /** The pattern "me" does not match "Googlebot", which has no 'm'. */
  lemma SinglePatternRejectsGooglebot()
    ensures !IsBotFor({"me"}, "Googlebot")
  {
    var t := AsciiLower("Googlebot");
    AsciiLowerByChars("Googlebot", "googlebot");
    assert 'm' !in t;
    SubstringNeedsHead("me", t);
    ToRegexMatchesIff({"me"}, t);
  }

  /**
   * Duplicates and blank lines: "me", "ME" and a line of one space give the
   * one pattern "me".
   */
  lemma NewCollapsesRepeatsAndBlanks()
    ensures ParseLines(AsciiLower("me\nME\n \n")) == {"me"}
  {
    AsciiLowerByChars("me\nME\n \n", "me\nme\n \n");
    assert "me\nme\n \n" == "me" + "\n" + ("me" + "\n" + (" " + "\n"));
    assert !IsBlank("me") by { assert "me"[0] in "me"; }
    ParseRepeatAndBlank("me", " ");
  }

  /** The folded two-line example: an empty line, the anchored pattern, the plain pattern. */
  lemma TwoLineExampleLayout()
    ensures "\n^googlebot-image/\nbingpreview/" == "\n" + ("^googlebot-image/" + "\n" + "bingpreview/")
  {
  }

  /** Folding the two-line example lowers the capitals of the anchored line only. */
  lemma TwoLineExampleFolds()
    ensures AsciiLower("\n^Googlebot-Image/\nbingpreview/") == "\n" + ("^googlebot-image/" + "\n" + "bingpreview/")
  {
    AsciiLowerByChars("\n^Googlebot-Image/\nbingpreview/", "\n^googlebot-image/\nbingpreview/");
    TwoLineExampleLayout();
  }

  /** A pattern line of the two-line example: not blank, no line break, no trailing '\r'. */
  lemma PatternLine(l: string)
    requires l == "^googlebot-image/" || l == "bingpreview/"
    ensures !IsBlank(l) && '\n' !in l && StripCr(l) == l
  {
    assert !IsWhitespace(l[0]);
  }

  /** The pattern text of the two-line example folds to one anchored and one plain pattern. */
  lemma TwoLineExampleText()
    ensures ParseLines(AsciiLower("\n^Googlebot-Image/\nbingpreview/")) == {"^googlebot-image/", "bingpreview/"}
  {
    TwoLineExampleFolds();
    PatternLine("^googlebot-image/");
    PatternLine("bingpreview/");
    ParseBlankThenTwoLines("^googlebot-image/", "bingpreview/");
  }

  /** The anchored pattern accepts "Googlebot-Image/1.0". */
  lemma TwoLineExampleAcceptsImage()
    ensures IsBotFor({"^googlebot-image/", "bingpreview/"}, "Googlebot-Image/1.0")
  {
    var image := AsciiLower("Googlebot-Image/1.0");
    AsciiLowerByChars("Googlebot-Image/1.0", "googlebot-image/1.0");
    assert IsPrefix("googlebot-image/", image);
    assert FragmentMatches("^googlebot-image/", image);
    ToRegexMatchesIff({"^googlebot-image/", "bingpreview/"}, image);
  }

  /** The plain pattern is found at the end of any longer user agent. */
  lemma TwoLineExampleAcceptsPreview(prefix: string)
    ensures IsBotFor({"^googlebot-image/", "bingpreview/"}, prefix + "BingPreview/1.0b")
  {
    var plain := "bingpreview/";
    AsciiLowerAppend(prefix, "BingPreview/1.0b");
    AsciiLowerByChars("BingPreview/1.0b", "bingpreview/1.0b");
    assert IsSubstring(plain, "bingpreview/1.0b") by {
      assert IsPrefix(plain, "bingpreview/1.0b");
    }
    SubstringOfAppend(plain, AsciiLower(prefix), "bingpreview/1.0b");
    ToRegexMatchesIff({"^googlebot-image/", "bingpreview/"}, AsciiLower(prefix + "BingPreview/1.0b"));
  }

  /** "Googlebot" is too short for either pattern. */
  lemma TwoLineExampleRejectsGooglebot()
    ensures !IsBotFor({"^googlebot-image/", "bingpreview/"}, "Googlebot")
  {
    var short := AsciiLower("Googlebot");
    assert |short| == 9;
    SubstringTooLong("bingpreview/", short);
    assert !FragmentMatches("^googlebot-image/", short);
    ToRegexMatchesIff({"^googlebot-image/", "bingpreview/"}, short);
  }

  /**
   * A set holding only the empty fragment joins to the empty pattern and so
   * gets the "^$" matcher: it then accepts only the empty user agent, though
   * the empty fragment on its own occurs in every input.
   */
  lemma EmptyFragmentAlone()
    ensures {} + LowerAll([""]) == {""}
    ensures FragmentMatches("", "a")
    ensures IsBotFor({""}, "") && !IsBotFor({""}, "a")
  {
    assert AsciiLower("") == "";
    assert LowerAll([""]) == {""};
    assert IsPrefix("", "a");
    ToRegexMatchesIff({""}, AsciiLower(""));
    ToRegexMatchesIff({""}, AsciiLower("a"));
  }

  /** A stored non-empty fragment that matches the folded user agent makes it a bot. */
  lemma StoredFragmentMatches(patterns: set<string>, f: string, userAgent: string)
    requires f in patterns && f != []
    requires FragmentMatches(f, AsciiLower(userAgent))
    ensures IsBotFor(patterns, userAgent)
  {
    ToRegexMatchesIff(patterns, AsciiLower(userAgent));
  }

  /** A user agent starting with `head` folds to the fold of `head` followed by the rest. */
  lemma FoldedPrefix(head: string, folded: string, rest: string)
    requires |head| == |folded|
    requires forall i :: 0 <= i < |head| ==> LowerChar(head[i]) == folded[i]
    ensures IsPrefix(folded, AsciiLower(head + rest))
  {
    AsciiLowerAppend(head, rest);
    AsciiLowerByChars(head, folded);
  }

  /**
   * After appending "TestCatalyzeBot", "^GoogleMetaverse" and "^Special/",
   * whatever was stored before, the anchored patterns accept every user agent
   * that starts with "Special/" or with "GoogleMetaverse".
   */
  lemma AddMultipleAcceptsAnchored(patterns: set<string>, suffix: string)
    ensures IsBotFor(patterns + LowerAll(["TestCatalyzeBot", "^GoogleMetaverse", "^Special/"]), "Special/" + suffix)
    ensures IsBotFor(patterns + LowerAll(["TestCatalyzeBot", "^GoogleMetaverse", "^Special/"]), "GoogleMetaverse" + suffix)
  {
    var added := ["TestCatalyzeBot", "^GoogleMetaverse", "^Special/"];
    var stored := patterns + LowerAll(added);
    AsciiLowerByChars("^Special/", "^special/");
    AsciiLowerByChars("^GoogleMetaverse", "^googlemetaverse");
    assert "^special/" in stored && "^googlemetaverse" in stored by {
      assert "^Special/" in added && "^GoogleMetaverse" in added;
    }
    FoldedPrefix("Special/", "special/", suffix);
    assert "^special/"[1..] == "special/";
    StoredFragmentMatches(stored, "^special/", "Special/" + suffix);
    FoldedPrefix("GoogleMetaverse", "googlemetaverse", suffix);
    assert "^googlemetaverse"[1..] == "googlemetaverse";
    StoredFragmentMatches(stored, "^googlemetaverse", "GoogleMetaverse" + suffix);
  }

  /**
   * After appending "GoogleMetaverse" and "^Special/" to any detector, the
   * plain pattern "googlemetaverse" accepts every user agent containing
   * "GoogleMetaverse".
   */
  lemma AppendExampleAcceptsMetaverse(patterns: set<string>, prefix: string, suffix: string)
    ensures IsBotFor(patterns + LowerAll(["GoogleMetaverse", "^Special/"]), prefix + "GoogleMetaverse" + suffix)
  {
    var stored := patterns + LowerAll(["GoogleMetaverse", "^Special/"]);
    var plain := "googlemetaverse";
    AsciiLowerByChars("GoogleMetaverse", plain);
    assert plain in stored by {
      assert "GoogleMetaverse" in ["GoogleMetaverse", "^Special/"];
    }
    FoldedPrefix("GoogleMetaverse", plain, suffix);
    var tail := AsciiLower("GoogleMetaverse" + suffix);
    assert IsSubstring(plain, tail);
    SubstringOfAppend(plain, AsciiLower(prefix), tail);
    AsciiLowerAppend(prefix, "GoogleMetaverse" + suffix);
    assert prefix + "GoogleMetaverse" + suffix == prefix + ("GoogleMetaverse" + suffix);
    assert !(|plain| >= 1 && (plain[0] == '^' || plain[|plain| - 1] == '$'));
    StoredFragmentMatches(stored, plain, prefix + "GoogleMetaverse" + suffix);
  }
}
