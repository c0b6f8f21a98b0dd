/**
 * The bot detector of BotGuardLib: a mutable set of lowercase user-agent
 * patterns together with one matcher compiled from all of them. Every
 * constructor and mutator leaves the matcher equal to the one that
 * `ToRegex` would build afresh from the current pattern set.
 */
module BotGuard {
  import opened StdText
  import opened RegexModel

  /** The embedded default corpus of a build without the default-corpus feature. */
  const DefaultPatterns: string := ""

  /** The separator `to_regex` joins fragments with. */
  const AlternationBar: string := "|"

  /** The pattern `to_regex` falls back to when the joined pattern is empty. */
  const EmptyOnly: string := "^$"

  // ---------------------------------------------------------------------------
  // parse_lines
  // ---------------------------------------------------------------------------

  /** `parse_lines`: the set of lines that are not blank after trimming; kept untrimmed. */
  function ParseLines(entries: string): set<string>
  {
    set l | l in Lines(entries) && Trim(l) != []
  }

  /** `parse_lines` keeps a line exactly when it is one of the text's lines and not blank. */
  lemma ParseLinesMember(t: string, x: string)
    ensures x in ParseLines(t) <==> x in Lines(t) && !IsBlank(x)
  {
    TrimEmptyIff(x);
  }

  /**
   * What `new` stores: the folded text's non-blank lines are exactly the
   * folds of the original text's non-blank lines; repeated lines, and lines
   * that differ only in ASCII case, collapse to one entry.
   */
  lemma NewStoresFoldedNonBlankLines(t: string)
    ensures ParseLines(AsciiLower(t)) == set l | l in Lines(t) && !IsBlank(l) :: AsciiLower(l)
  {
    LinesOfLower(t);
    var lhs := ParseLines(AsciiLower(t));
    var rhs := set l | l in Lines(t) && !IsBlank(l) :: AsciiLower(l);
    forall x ensures x in lhs <==> x in rhs {
      LowerEachMember(Lines(t), x);
      TrimEmptyIff(x);
      if x in rhs {
        var l :| l in Lines(t) && !IsBlank(l) && x == AsciiLower(l);
        BlankUnderLower(l);
      }
      if x in lhs {
        var l :| l in Lines(t) && x == AsciiLower(l);
        BlankUnderLower(l);
      }
    }
  }

  /** For a text written line by line, `parse_lines` keeps exactly the non-blank lines. */
  lemma ParseLinesOfTerminated(ls: seq<string>, crlf: bool)
    requires Splittable(ls, crlf)
    ensures ParseLines(Terminated(ls, crlf)) == set l | l in ls && !IsBlank(l)
  {
    LinesOfTerminated(ls, crlf);
    forall l | l in ls ensures Trim(l) != [] <==> !IsBlank(l) {
      TrimEmptyIff(l);
    }
  }

  /** Every stored pattern comes from the folded text, so holds no capital. */
  lemma ParsedLinesAreLower(t: string)
    ensures forall p :: p in ParseLines(AsciiLower(t)) ==> IsAsciiLower(p)
  {
    AsciiLowerIsLower(t);
    LinesCharsFromText(AsciiLower(t));
  }

  /** A parsed pattern is a single line: it never holds a '\n'. */
  lemma ParsedLinesAreSingleLines(t: string)
    ensures forall p :: p in ParseLines(t) ==> '\n' !in p
  {
    LinesHaveNoNewline(t);
  }

  // ---------------------------------------------------------------------------
  // to_regex
  // ---------------------------------------------------------------------------

  /** `Vec::join`: the strings with `sep` between consecutive ones. */
  function Join(xs: seq<string>, sep: string): string
  {
    if xs == [] then []
    else if |xs| == 1 then xs[0]
    else xs[0] + sep + Join(xs[1..], sep)
  }

  /** With a non-empty separator, a join is empty only for no strings or one empty string. */
  lemma JoinEmptyIff(xs: seq<string>, sep: string)
    requires sep != []
    ensures Join(xs, sep) == [] <==> xs == [] || xs == [""]
  {
    if |xs| >= 2 {
      assert |Join(xs, sep)| >= |sep|;
    }
  }

  /** `xs` lists the elements of `s`, each once, in some order (a `HashSet` iteration). */
  ghost predicate Enumerates(xs: seq<string>, s: set<string>)
  {
    && (forall x :: x in xs <==> x in s)
    && (forall i, j :: 0 <= i < j < |xs| ==> xs[i] != xs[j])
  }

  /**
   * `to_regex`: the alternation of all entries, or the matcher of "^$" when
   * joining the entries gives the empty pattern.
   */
  function ToRegex(entries: set<string>): Regex
  {
    if entries <= {""} then Alternation({EmptyOnly}) else Alternation(entries)
  }

  /**
   * `ToRegex` agrees with the source's join-then-test, whatever order the
   * set is iterated in: the empty fallback is taken exactly when the joined
   * pattern is empty, otherwise the branches are the joined entries.
   */
  lemma ToRegexAsWritten(entries: set<string>, order: seq<string>)
    requires Enumerates(order, entries)
    ensures var pattern := Join(order, AlternationBar);
            ToRegex(entries) == if pattern == [] then Alternation({EmptyOnly})
                                else Alternation(set x | x in order)
  {
    JoinEmptyIff(order, AlternationBar);
    if |order| >= 2 {
      assert order[0] != order[1];
      assert order[0] in entries && order[1] in entries;
    } else if |order| == 1 {
      assert order[0] in entries;
    }
    assert (set x | x in order) == entries;
  }

  /**
   * The combined matcher against the fragments one by one: it matches only
   * the empty input when the set is empty or holds only the empty fragment,
   * and otherwise exactly when some stored fragment matches.
   */
  lemma ToRegexMatchesIff(entries: set<string>, t: string)
    ensures IsMatch(ToRegex(entries), t) <==>
      if entries <= {""} then t == []
      else exists f :: f in entries && FragmentMatches(f, t)
  {
    AnchoredEmptyMatches(t);
    if entries <= {""} && t == [] {
      assert EmptyOnly in ToRegex(entries).branches;
    }
  }

  /** What `check_bot` answers for a detector holding `patterns`. */
  function IsBotFor(patterns: set<string>, userAgent: string): bool
  {
    IsMatch(ToRegex(patterns), AsciiLower(userAgent))
  }

  /** `check_bot` gives the same answer for inputs equal up to ASCII case. */
  lemma IsBotForIgnoresAsciiCase(patterns: set<string>, a: string, b: string)
    requires EqualIgnoringAsciiCase(a, b)
    ensures IsBotFor(patterns, a) == IsBotFor(patterns, b)
  {
    EqualIgnoringAsciiCaseIff(a, b);
  }

  // ---------------------------------------------------------------------------
  // append and remove, on the pattern set
  // ---------------------------------------------------------------------------

  /** The folds of a list of fragments, as `append` and `remove` use them. */
  function LowerAll(bots: seq<string>): set<string>
  {
    set b | b in bots :: AsciiLower(b)
  }

  /** Fragment lists that agree up to ASCII case have the same effect on the set. */
  lemma LowerAllIgnoresAsciiCase(bots: seq<string>, others: seq<string>)
    requires |bots| == |others|
    requires forall i :: 0 <= i < |bots| ==> EqualIgnoringAsciiCase(bots[i], others[i])
    ensures LowerAll(bots) == LowerAll(others)
  {
    forall x ensures x in LowerAll(bots) <==> x in LowerAll(others) {
      if x in LowerAll(bots) {
        var b :| b in bots && x == AsciiLower(b);
        var i :| 0 <= i < |bots| && bots[i] == b;
        EqualIgnoringAsciiCaseIff(bots[i], others[i]);
        assert others[i] in others;
      }
      if x in LowerAll(others) {
        var b :| b in others && x == AsciiLower(b);
        var i :| 0 <= i < |others| && others[i] == b;
        EqualIgnoringAsciiCaseIff(bots[i], others[i]);
        assert bots[i] in bots;
      }
    }
  }

  /** Appending a fragment or its upper-cased form changes the set the same way. */
  lemma AppendUpperSameEffect(patterns: set<string>, bot: string)
    ensures patterns + LowerAll([bot]) == patterns + LowerAll([AsciiUpper(bot)])
  {
    AsciiLowerOfUpper(bot);
    assert LowerAll([bot]) == {AsciiLower(bot)};
    assert LowerAll([AsciiUpper(bot)]) == {AsciiLower(AsciiUpper(bot))};
  }

  /** Removing what was just appended restores a set that lacked all of it. */
  lemma AppendThenRemoveRestores(patterns: set<string>, bots: seq<string>)
    requires forall b :: b in bots ==> AsciiLower(b) !in patterns
    ensures (patterns + LowerAll(bots)) - LowerAll(bots) == patterns
  {
  }

  /**
   * A stored pattern is already folded, so `remove` of that very pattern
   * deletes exactly it and `append` of it changes nothing.
   */
  lemma StoredPatternIsItsOwnFold(patterns: set<string>, p: string)
    requires forall q :: q in patterns ==> IsAsciiLower(q)
    requires p in patterns
    ensures patterns - LowerAll([p]) == patterns - {p}
    ensures patterns + LowerAll([p]) == patterns
  {
    AsciiLowerFixedIff(p);
    assert LowerAll([p]) == {AsciiLower(p)};
  }

  /** Appending a fragment or its fold changes the set the same way. */
  lemma AppendFoldedSameEffect(patterns: set<string>, bot: string)
    ensures patterns + LowerAll([AsciiLower(bot)]) == patterns + LowerAll([bot])
  {
    AsciiLowerIdempotent(bot);
    assert LowerAll([AsciiLower(bot)]) == {AsciiLower(AsciiLower(bot))};
    assert LowerAll([bot]) == {AsciiLower(bot)};
  }

  // ---------------------------------------------------------------------------
  // The detector
  // ---------------------------------------------------------------------------

  class BotDetector {
    var userAgentsRegex: Regex
    var userAgentPatterns: set<string>

    /** The matcher is the one built from the current set, and every pattern is folded. */
    ghost predicate Valid()
      reads this
    {
      && userAgentsRegex == ToRegex(userAgentPatterns)
      && forall p :: p in userAgentPatterns ==> IsAsciiLower(p)
    }

    /** `new`: fold the whole text, keep its non-blank lines, compile them. */
    constructor (botEntries: string)
      ensures Valid()
      ensures userAgentPatterns == ParseLines(AsciiLower(botEntries))
    {
      var patterns := ParseLines(AsciiLower(botEntries));
      ParsedLinesAreLower(botEntries);
      userAgentPatterns := patterns;
      userAgentsRegex := ToRegex(patterns);
    }

    /** `default`: `new` on the embedded corpus, which is empty in this build. */
    constructor Default()
      ensures Valid()
      ensures userAgentPatterns == ParseLines(AsciiLower(DefaultPatterns))
      ensures userAgentPatterns == {}
    {
      var patterns := ParseLines(AsciiLower(DefaultPatterns));
      ParsedLinesAreLower(DefaultPatterns);
      userAgentPatterns := patterns;
      userAgentsRegex := ToRegex(patterns);
    }

    /** `append`: insert the fold of every fragment, then rebuild the matcher. */
    method Append(bots: seq<string>)
      requires Valid()
      modifies this
      ensures Valid()
      ensures userAgentPatterns == old(userAgentPatterns) + LowerAll(bots)
    {
      for i := 0 to |bots|
        invariant userAgentPatterns == old(userAgentPatterns) + LowerAll(bots[..i])
        invariant forall p :: p in userAgentPatterns ==> IsAsciiLower(p)
      {
        assert bots[..i + 1] == bots[..i] + [bots[i]];
        AsciiLowerIsLower(bots[i]);
        userAgentPatterns := userAgentPatterns + {AsciiLower(bots[i])};
      }
      assert bots[..|bots|] == bots;
      UpdateRegex();
    }

    /** `remove`: delete the fold of every fragment, then rebuild the matcher. */
    method Remove(bots: seq<string>)
      requires Valid()
      modifies this
      ensures Valid()
      ensures userAgentPatterns == old(userAgentPatterns) - LowerAll(bots)
    {
      for i := 0 to |bots|
        invariant userAgentPatterns == old(userAgentPatterns) - LowerAll(bots[..i])
        invariant forall p :: p in userAgentPatterns ==> IsAsciiLower(p)
      {
        assert bots[..i + 1] == bots[..i] + [bots[i]];
        userAgentPatterns := userAgentPatterns - {AsciiLower(bots[i])};
      }
      assert bots[..|bots|] == bots;
      UpdateRegex();
    }

    /** `update_regex`: recompile the matcher from the whole current set. */
    method UpdateRegex()
      modifies this`userAgentsRegex
      ensures userAgentsRegex == ToRegex(userAgentPatterns)
    {
      userAgentsRegex := ToRegex(userAgentPatterns);
    }

    /**
     * `check_bot`: run the stored matcher on the folded user agent. Because
     * the matcher is kept in step with the set, the answer is the one the
     * fragments give one by one.
     */
    function CheckBot(userAgent: string): (r: bool)
      reads this
      requires Valid()
      ensures r == IsBotFor(userAgentPatterns, userAgent)
      ensures userAgentPatterns <= {""} ==> (r <==> userAgent == [])
      ensures !(userAgentPatterns <= {""}) ==>
        (r <==> exists f :: f in userAgentPatterns && FragmentMatches(f, AsciiLower(userAgent)))
    {
      ToRegexMatchesIff(userAgentPatterns, AsciiLower(userAgent));
      IsMatch(userAgentsRegex, AsciiLower(userAgent))
    }
  }

  // ---------------------------------------------------------------------------
  // Properties of whole call sequences on one detector
  // ---------------------------------------------------------------------------

  /** Appending the same fragments twice is appending them once: set and matcher. */
  method AppendIsIdempotent(d: BotDetector, bots: seq<string>)
    requires d.Valid()
    modifies d
    ensures d.Valid()
    ensures d.userAgentPatterns == old(d.userAgentPatterns) + LowerAll(bots)
  {
    d.Append(bots);
    ghost var once, matcher := d.userAgentPatterns, d.userAgentsRegex;
    d.Append(bots);
    assert d.userAgentPatterns == once && d.userAgentsRegex == matcher;
  }

  /** Appending fragments already stored, or removing absent ones, changes nothing. */
  method KnownAppendAbsentRemoveAreNoOps(d: BotDetector, present: seq<string>, absent: seq<string>)
    requires d.Valid()
    requires LowerAll(present) <= d.userAgentPatterns
    requires LowerAll(absent) !! d.userAgentPatterns
    modifies d
    ensures d.Valid()
    ensures d.userAgentPatterns == old(d.userAgentPatterns)
    ensures d.userAgentsRegex == old(d.userAgentsRegex)
  {
    d.Append(present);
    d.Remove(absent);
  }

  /** `remove([p])` of a stored pattern `p` deletes `p` and nothing else. */
  method RemoveStoredPattern(d: BotDetector, p: string)
    requires d.Valid()
    requires p in d.userAgentPatterns
    modifies d
    ensures d.Valid()
    ensures d.userAgentPatterns == old(d.userAgentPatterns) - {p}
  {
    StoredPatternIsItsOwnFold(d.userAgentPatterns, p);
    d.Remove([p]);
  }

  /** `append([f]); remove([f])` restores set and matcher when `f` was not stored. */
  method AppendRemoveRoundTrip(d: BotDetector, bot: string)
    requires d.Valid()
    requires AsciiLower(bot) !in d.userAgentPatterns
    modifies d
    ensures d.Valid()
    ensures d.userAgentPatterns == old(d.userAgentPatterns)
    ensures d.userAgentsRegex == old(d.userAgentsRegex)
  {
    d.Append([bot]);
    d.Remove([bot]);
    AppendThenRemoveRestores(old(d.userAgentPatterns), [bot]);
  }
}
