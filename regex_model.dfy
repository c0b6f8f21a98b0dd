/**
 * A stand-in for the `regex` crate, reduced to what the bot detector needs.
 *
 * A fragment is read as literal text, optionally anchored: a leading '^'
 * pins it to the start of the input and a trailing '$' to the end. Without
 * anchors it matches anywhere in the input (unanchored search, as
 * `Regex::is_match` does). A compiled pattern `a|b|c` is the alternation of
 * its fragments: it matches when any one of them does.
 */
module RegexModel {

  predicate IsPrefix(p: string, t: string)
  {
    |p| <= |t| && t[..|p|] == p
  }

  predicate IsSuffix(p: string, t: string)
  {
    |p| <= |t| && t[|t| - |p|..] == p
  }

  /** `p` occurs somewhere in `t`. */
  predicate IsSubstring(p: string, t: string)
    decreases |t|
  {
    IsPrefix(p, t) || (t != [] && IsSubstring(p, t[1..]))
  }

  /** Whether the single fragment `f` matches somewhere in `t`. */
  predicate FragmentMatches(f: string, t: string)
  {
    if |f| >= 2 && f[0] == '^' && f[|f| - 1] == '$' then t == f[1..|f| - 1]
    else if |f| >= 1 && f[0] == '^' then IsPrefix(f[1..], t)
    else if |f| >= 1 && f[|f| - 1] == '$' then IsSuffix(f[..|f| - 1], t)
    else IsSubstring(f, t)
  }

  /** A compiled matcher: the alternation of its branches. */
  datatype Regex = Alternation(branches: set<string>)

  /** `Regex::is_match`: some branch matches somewhere in the input. */
  predicate IsMatch(re: Regex, t: string)
  {
    exists f :: f in re.branches && FragmentMatches(f, t)
  }

  /** `p` occurs in `t` exactly when some suffix of `t` starts with `p`. */
  lemma {:induction false} SubstringIff(p: string, t: string)
    ensures IsSubstring(p, t) <==> exists i :: 0 <= i <= |t| && IsPrefix(p, t[i..])
    decreases |t|
  {
    assert t[0..] == t;
    if t != [] {
      SubstringIff(p, t[1..]);
      if IsSubstring(p, t[1..]) {
        var i :| 0 <= i <= |t[1..]| && IsPrefix(p, t[1..][i..]);
        assert t[1..][i..] == t[i + 1..];
      }
      if exists i :: 0 <= i <= |t| && IsPrefix(p, t[i..]) {
        var i :| 0 <= i <= |t| && IsPrefix(p, t[i..]);
        if i > 0 {
          assert t[1..][i - 1..] == t[i..];
        }
      }
    }
  }

  /** A fragment longer than the input cannot match without anchors. */
  lemma {:induction false} SubstringTooLong(p: string, t: string)
    requires |p| > |t|
    ensures !IsSubstring(p, t)
    decreases |t|
  {
    if t != [] {
      SubstringTooLong(p, t[1..]);
    }
  }

  /** The fragment "^$" matches the empty input and nothing else. */
  lemma AnchoredEmptyMatches(t: string)
    ensures FragmentMatches("^$", t) <==> t == []
  {
    assert "^$"[1..1] == [];
  }

  /** A fragment whose first character never occurs in `t` does not occur in `t`. */
  lemma {:induction false} SubstringNeedsHead(p: string, t: string)
    requires p != [] && p[0] !in t
    ensures !IsSubstring(p, t)
    decreases |t|
  {
    if t != [] {
      assert t[0] in t;
      assert p[0] !in t[1..] by {
        forall i | 0 <= i < |t[1..]| ensures t[1..][i] != p[0] {
          assert t[1..][i] == t[i + 1];
        }
      }
      SubstringNeedsHead(p, t[1..]);
    }
  }

  /** An occurrence in the tail is an occurrence in the whole. */
  lemma {:induction false} SubstringOfAppend(p: string, a: string, b: string)
    requires IsSubstring(p, b)
    ensures IsSubstring(p, a + b)
    decreases |a|
  {
    if a != [] {
      SubstringOfAppend(p, a[1..], b);
      assert (a + b)[1..] == a[1..] + b;
      assert IsSubstring(p, (a + b)[1..]);
    } else {
      assert a + b == b;
    }
  }
}
