/**
 * The parts of Rust's standard string library that the bot detector relies on:
 * ASCII-only case folding (`str::to_ascii_lowercase`, `str::eq_ignore_ascii_case`),
 * Unicode whitespace with `str::trim`, and the line splitter `str::lines`.
 * A Rust `&str` is modelled as a sequence of Unicode scalar values.
 */
module StdText {

  // ---------------------------------------------------------------------------
  // ASCII case folding
  // ---------------------------------------------------------------------------

  predicate IsAsciiUpperChar(c: char) { 'A' <= c <= 'Z' }

  predicate IsAsciiLowerChar(c: char) { 'a' <= c <= 'z' }

  /** `char::to_ascii_lowercase`: only 'A'..'Z' change. */
  function LowerChar(c: char): char
  {
    if IsAsciiUpperChar(c) then (c as int + 32) as char else c
  }

  /** `char::to_ascii_uppercase`: only 'a'..'z' change. */
  function UpperChar(c: char): char
  {
    if IsAsciiLowerChar(c) then (c as int - 32) as char else c
  }

  /** A string holding no ASCII capital letter. */
  predicate IsAsciiLower(s: string)
  {
    forall c :: c in s ==> !IsAsciiUpperChar(c)
  }

  /**
   * `str::to_ascii_lowercase`: every ASCII capital is replaced by its small
   * letter, every other character (non-ASCII ones included) is kept.
   */
  function AsciiLower(s: string): string
  {
    seq(|s|, i requires 0 <= i < |s| => LowerChar(s[i]))
  }

  /** `str::to_ascii_uppercase`. */
  function AsciiUpper(s: string): string
  {
    seq(|s|, i requires 0 <= i < |s| => UpperChar(s[i]))
  }

  /** A folded string holds no ASCII capital; every other character is kept as it was. */
  lemma AsciiLowerIsLower(s: string)
    ensures IsAsciiLower(AsciiLower(s))
    ensures forall i :: 0 <= i < |s| ==> (AsciiLower(s)[i] == s[i] <==> !IsAsciiUpperChar(s[i]))
  {
    var r := AsciiLower(s);
    forall c | c in r ensures !IsAsciiUpperChar(c) {
      var i :| 0 <= i < |r| && r[i] == c;
    }
  }

  /** The fold is determined by its characters: a string folding letter by letter to `r` folds to `r`. */
  lemma AsciiLowerByChars(s: string, r: string)
    requires |s| == |r|
    requires forall i :: 0 <= i < |s| ==> LowerChar(s[i]) == r[i]
    ensures AsciiLower(s) == r
  {
  }

  /** Folding distributes over concatenation. */
  lemma AsciiLowerAppend(a: string, b: string)
    ensures AsciiLower(a + b) == AsciiLower(a) + AsciiLower(b)
  {
    var l, r := AsciiLower(a + b), AsciiLower(a) + AsciiLower(b);
    assert |l| == |r|;
    forall i | 0 <= i < |l| ensures l[i] == r[i] {
      if i < |a| { assert (a + b)[i] == a[i]; } else { assert (a + b)[i] == b[i - |a|]; }
    }
  }

  /** A string is ASCII-lowercase exactly when folding leaves it unchanged. */
  lemma AsciiLowerFixedIff(s: string)
    ensures IsAsciiLower(s) <==> AsciiLower(s) == s
  {
    if IsAsciiLower(s) {
      forall i | 0 <= i < |s| ensures AsciiLower(s)[i] == s[i] {
        assert s[i] in s;
      }
    }
  }

  /** Folding twice is folding once. */
  lemma AsciiLowerIdempotent(s: string)
    ensures AsciiLower(AsciiLower(s)) == AsciiLower(s)
  {
    AsciiLowerIsLower(s);
    AsciiLowerFixedIff(AsciiLower(s));
  }

  /** Upper-casing first makes no difference to the fold. */
  lemma AsciiLowerOfUpper(s: string)
    ensures AsciiLower(AsciiUpper(s)) == AsciiLower(s)
  {
    var l, r := AsciiLower(AsciiUpper(s)), AsciiLower(s);
    forall i | 0 <= i < |s| ensures l[i] == r[i] {
      assert LowerChar(UpperChar(s[i])) == LowerChar(s[i]);
    }
  }

  /** `char::eq_ignore_ascii_case`, stated letter by letter. */
  predicate CharsEqualIgnoringAsciiCase(x: char, y: char)
  {
    || x == y
    || (IsAsciiUpperChar(x) && y as int == x as int + 32)
    || (IsAsciiUpperChar(y) && x as int == y as int + 32)
  }

  /** `str::eq_ignore_ascii_case`: equal lengths and position-wise equal letters up to ASCII case. */
  predicate EqualIgnoringAsciiCase(a: string, b: string)
  {
    |a| == |b| && forall i :: 0 <= i < |a| ==> CharsEqualIgnoringAsciiCase(a[i], b[i])
  }

  /** Two strings are equal up to ASCII case exactly when their folds are equal. */
  lemma EqualIgnoringAsciiCaseIff(a: string, b: string)
    ensures EqualIgnoringAsciiCase(a, b) <==> AsciiLower(a) == AsciiLower(b)
  {
    if AsciiLower(a) == AsciiLower(b) {
      forall i | 0 <= i < |a| ensures CharsEqualIgnoringAsciiCase(a[i], b[i]) {
        assert AsciiLower(a)[i] == AsciiLower(b)[i];
      }
    }
    if EqualIgnoringAsciiCase(a, b) {
      forall i | 0 <= i < |a| ensures AsciiLower(a)[i] == AsciiLower(b)[i] {
        assert CharsEqualIgnoringAsciiCase(a[i], b[i]);
      }
    }
  }

  // ---------------------------------------------------------------------------
  // Whitespace and trim
  // ---------------------------------------------------------------------------

  /** `char::is_whitespace`: the Unicode White_Space property. */
  predicate IsWhitespace(c: char)
  {
    var n := c as int;
    || 0x09 <= n <= 0x0D
    || n == 0x20
    || n == 0x85
    || n == 0xA0
    || n == 0x1680
    || 0x2000 <= n <= 0x200A
    || n == 0x2028
    || n == 0x2029
    || n == 0x202F
    || n == 0x205F
    || n == 0x3000
  }

  /** A line made only of whitespace (possibly no characters at all). */
  predicate IsBlank(s: string)
  {
    forall c :: c in s ==> IsWhitespace(c)
  }

  function TrimStart(s: string): string
  {
    if s != [] && IsWhitespace(s[0]) then TrimStart(s[1..]) else s
  }

  function TrimEnd(s: string): string
  {
    if s != [] && IsWhitespace(s[|s| - 1]) then TrimEnd(s[..|s| - 1]) else s
  }

  /** `str::trim`: drop leading and trailing whitespace. */
  function Trim(s: string): string
  {
    TrimEnd(TrimStart(s))
  }

  lemma {:induction false} TrimStartEmptyIff(s: string)
    ensures TrimStart(s) == [] <==> IsBlank(s)
    ensures TrimStart(s) != [] ==> !IsWhitespace(TrimStart(s)[0])
    decreases |s|
  {
    if s != [] && IsWhitespace(s[0]) {
      TrimStartEmptyIff(s[1..]);
      forall c | c in s ensures c == s[0] || c in s[1..] {
        var i :| 0 <= i < |s| && s[i] == c;
        if i > 0 { assert s[1..][i - 1] == c; }
      }
    } else if s != [] {
      assert s[0] in s;
    }
  }

  lemma {:induction false} TrimEndKeepsHead(s: string)
    requires s != [] && !IsWhitespace(s[0])
    ensures TrimEnd(s) != []
    decreases |s|
  {
    if IsWhitespace(s[|s| - 1]) {
      TrimEndKeepsHead(s[..|s| - 1]);
    }
  }

  /** `l.trim().is_empty()` holds exactly for blank lines. */
  lemma TrimEmptyIff(s: string)
    ensures Trim(s) == [] <==> IsBlank(s)
  {
    TrimStartEmptyIff(s);
    if TrimStart(s) != [] {
      TrimEndKeepsHead(TrimStart(s));
    }
  }

  /** Folding never turns a blank line into a non-blank one or back. */
  lemma BlankUnderLower(s: string)
    ensures IsBlank(AsciiLower(s)) <==> IsBlank(s)
  {
    var l := AsciiLower(s);
    if IsBlank(s) {
      forall c | c in l ensures IsWhitespace(c) {
        var i :| 0 <= i < |l| && l[i] == c;
        assert s[i] in s;
      }
    }
    if IsBlank(l) {
      forall c | c in s ensures IsWhitespace(c) {
        var i :| 0 <= i < |s| && s[i] == c;
        assert l[i] in l;
      }
    }
  }

  // ---------------------------------------------------------------------------
  // str::lines
  // ---------------------------------------------------------------------------

  /** Position of the first '\n' in `t`, or `|t|` when there is none. */
  function NewlineIndex(t: string): (k: nat)
    ensures k <= |t|
    ensures forall j :: 0 <= j < k ==> t[j] != '\n'
    ensures k < |t| ==> t[k] == '\n'
  {
    if t == [] || t[0] == '\n' then 0 else 1 + NewlineIndex(t[1..])
  }

  /** Drop one trailing carriage return, as `lines` does before a '\n'. */
  function StripCr(l: string): string
  {
    if |l| > 0 && l[|l| - 1] == '\r' then l[..|l| - 1] else l
  }

  /**
   * `str::lines`: split after every '\n', drop that '\n' and then one '\r'
   * in front of it. A final line without '\n' is kept as it is (a bare
   * trailing '\r' included), and a trailing '\n' does not start an extra line.
   */
  function Lines(t: string): seq<string>
    decreases |t|
  {
    if t == [] then []
    else
      var k := NewlineIndex(t);
      if k == |t| then [t] else [StripCr(t[..k])] + Lines(t[k + 1..])
  }

  /** A line terminated by '\n' is the first element, the rest is split on. */
  lemma LinesCons(a: string, b: string)
    requires '\n' !in a
    ensures Lines(a + "\n" + b) == [StripCr(a)] + Lines(b)
  {
    var t := a + "\n" + b;
    NewlineIndexOf(a, b);
    assert t[..|a|] == a;
    assert t[|a| + 1..] == b;
  }

  /** A last line with no '\n' is yielded untouched. */
  lemma LinesLast(a: string)
    requires a != [] && '\n' !in a
    ensures Lines(a) == [a]
  {
    assert forall j :: 0 <= j < |a| ==> a[j] in a;
  }

  lemma {:induction false} NewlineIndexOf(a: string, b: string)
    requires '\n' !in a
    ensures NewlineIndex(a + "\n" + b) == |a|
    decreases |a|
  {
    var t := a + "\n" + b;
    if a != [] {
      assert a[0] in a;
      assert t[1..] == a[1..] + "\n" + b;
      assert '\n' !in a[1..] by {
        forall c | c in a[1..] ensures c in a {
          var i :| 0 <= i < |a[1..]| && a[1..][i] == c;
          assert a[i + 1] == c;
        }
      }
      NewlineIndexOf(a[1..], b);
    }
  }

  /** No line ever contains a '\n'. */
  lemma {:induction false} LinesHaveNoNewline(t: string)
    ensures forall l :: l in Lines(t) ==> '\n' !in l
    decreases |t|
  {
    if t != [] {
      var k := NewlineIndex(t);
      if k < |t| {
        LinesHaveNoNewline(t[k + 1..]);
        var l := StripCr(t[..k]);
        forall c | c in l ensures c != '\n' {
          var i :| 0 <= i < |l| && l[i] == c;
          assert t[i] == c;
        }
      } else {
        forall c | c in t ensures c != '\n' {
          var i :| 0 <= i < |t| && t[i] == c;
        }
      }
    }
  }

  /** Every character of every line comes from the text. */
  lemma {:induction false} LinesCharsFromText(t: string)
    ensures forall l, c :: l in Lines(t) && c in l ==> c in t
    decreases |t|
  {
    if t != [] {
      var k := NewlineIndex(t);
      if k < |t| {
        LinesCharsFromText(t[k + 1..]);
        forall l, c | l in Lines(t) && c in l ensures c in t {
          if l == StripCr(t[..k]) {
            var i :| 0 <= i < |l| && l[i] == c;
            assert t[i] == c;
          } else {
            assert l in Lines(t[k + 1..]);
            var i :| 0 <= i < |t[k + 1..]| && t[k + 1..][i] == c;
            assert t[k + 1 + i] == c;
          }
        }
      }
    }
  }

  /** Write each line followed by "\n" (or by "\r\n" when `crlf`). */
  function Terminated(ls: seq<string>, crlf: bool): string
  {
    if ls == [] then [] else ls[0] + (if crlf then "\r\n" else "\n") + Terminated(ls[1..], crlf)
  }

  /** The lines a `Terminated` text can be split back into without loss. */
  predicate Splittable(ls: seq<string>, crlf: bool)
  {
    forall l :: l in ls ==> '\n' !in l && (!crlf ==> StripCr(l) == l)
  }

  /** A line that ends in "\r\n" loses exactly that ending. */
  lemma LinesConsCrlf(l: string, b: string)
    requires '\n' !in l
    ensures Lines(l + "\r\n" + b) == [l] + Lines(b)
  {
    var a := l + "\r";
    assert '\n' !in a by {
      forall i | 0 <= i < |a| ensures a[i] != '\n' {
        if i < |l| { assert l[i] in l; }
      }
    }
    assert l + "\r\n" + b == a + "\n" + b;
    LinesCons(a, b);
    assert a[..|a| - 1] == l;
  }

  /** Splitting a written list takes off its first line. */
  lemma LinesOfTerminatedHead(ls: seq<string>, crlf: bool)
    requires ls != [] && '\n' !in ls[0] && (!crlf ==> StripCr(ls[0]) == ls[0])
    ensures Lines(Terminated(ls, crlf)) == [ls[0]] + Lines(Terminated(ls[1..], crlf))
  {
    var l, rest := ls[0], Terminated(ls[1..], crlf);
    if crlf {
      assert Terminated(ls, crlf) == l + "\r\n" + rest;
      LinesConsCrlf(l, rest);
    } else {
      assert Terminated(ls, crlf) == l + "\n" + rest;
      LinesCons(l, rest);
    }
  }

  /** Round trip: splitting a text written line by line gives back the lines. */
  lemma {:induction false} LinesOfTerminated(ls: seq<string>, crlf: bool)
    requires Splittable(ls, crlf)
    ensures Lines(Terminated(ls, crlf)) == ls
    decreases |ls|
  {
    if ls != [] {
      assert ls[0] in ls;
      LinesOfTerminatedHead(ls, crlf);
      assert Splittable(ls[1..], crlf) by {
        forall x | x in ls[1..] ensures x in ls { }
      }
      LinesOfTerminated(ls[1..], crlf);
      assert ls == [ls[0]] + ls[1..];
    }
  }

  // ---------------------------------------------------------------------------
  // Folding and line splitting commute
  // ---------------------------------------------------------------------------

  /** Fold every line of a list. */
  function LowerEach(ls: seq<string>): (r: seq<string>)
    ensures |r| == |ls|
  {
    if ls == [] then [] else [AsciiLower(ls[0])] + LowerEach(ls[1..])
  }

  lemma {:induction false} LowerEachMember(ls: seq<string>, x: string)
    ensures x in LowerEach(ls) <==> exists l :: l in ls && x == AsciiLower(l)
    decreases |ls|
  {
    if ls != [] {
      LowerEachMember(ls[1..], x);
      if exists l :: l in ls && x == AsciiLower(l) {
        var l :| l in ls && x == AsciiLower(l);
        if l != ls[0] {
          assert l in ls[1..];
        }
      }
    }
  }

  /** Folding a character never creates or removes a '\n' or a '\r'. */
  lemma LowerCharKeepsLineBreaks(c: char)
    ensures LowerChar(c) == '\n' <==> c == '\n'
    ensures LowerChar(c) == '\r' <==> c == '\r'
  {
  }

  lemma NewlineIndexOfLower(t: string)
    ensures NewlineIndex(AsciiLower(t)) == NewlineIndex(t)
  {
    var u := AsciiLower(t);
    var a, b := NewlineIndex(t), NewlineIndex(u);
    if a < b {
      assert u[a] == LowerChar(t[a]);
      LowerCharKeepsLineBreaks(t[a]);
      assert false;
    } else if b < a {
      assert u[b] == LowerChar(t[b]);
      LowerCharKeepsLineBreaks(t[b]);
      assert false;
    }
  }

  /** Folding commutes with taking a slice. */
  lemma SliceOfLower(s: string, i: nat, j: nat)
    requires i <= j <= |s|
    ensures AsciiLower(s)[i..j] == AsciiLower(s[i..j])
  {
    var u, v := AsciiLower(s)[i..j], AsciiLower(s[i..j]);
    forall n | 0 <= n < j - i ensures u[n] == v[n] {
      assert u[n] == AsciiLower(s)[i + n];
    }
  }

  /** Folding commutes with cutting the text around a position. */
  lemma SplitOfLower(t: string, k: nat)
    requires k < |t|
    ensures AsciiLower(t)[..k] == AsciiLower(t[..k])
    ensures AsciiLower(t)[k + 1..] == AsciiLower(t[k + 1..])
  {
    SliceOfLower(t, 0, k);
    SliceOfLower(t, k + 1, |t|);
    assert t[0..k] == t[..k] && t[k + 1..|t|] == t[k + 1..];
    assert AsciiLower(t)[0..k] == AsciiLower(t)[..k];
  }

  /** Folding commutes with dropping a trailing '\r'. */
  lemma StripCrOfLower(l: string)
    ensures StripCr(AsciiLower(l)) == AsciiLower(StripCr(l))
  {
    if |l| > 0 {
      LowerCharKeepsLineBreaks(l[|l| - 1]);
      if l[|l| - 1] == '\r' {
        SplitOfLower(l, |l| - 1);
      }
    }
  }

  /** Splitting a folded text takes off the folded first line. */
  lemma LinesOfLowerHead(t: string, k: nat)
    requires k == NewlineIndex(t) < |t|
    ensures Lines(AsciiLower(t)) == [AsciiLower(StripCr(t[..k]))] + Lines(AsciiLower(t[k + 1..]))
  {
    var u := AsciiLower(t);
    NewlineIndexOfLower(t);
    assert Lines(u) == [StripCr(u[..k])] + Lines(u[k + 1..]);
    SplitOfLower(t, k);
    StripCrOfLower(t[..k]);
  }

  /** A text with no line break folds to a single folded line. */
  lemma LinesOfLowerLast(t: string)
    requires t != [] && NewlineIndex(t) == |t|
    ensures Lines(AsciiLower(t)) == LowerEach(Lines(t))
  {
    var u := AsciiLower(t);
    NewlineIndexOfLower(t);
    assert Lines(t) == [t];
    assert Lines(u) == [u];
    assert LowerEach([t]) == [u] + LowerEach([]);
  }

  /** One step of `Lines`: the line before the first '\n', then the lines after it. */
  lemma LinesStep(t: string, k: nat)
    requires k == NewlineIndex(t) < |t|
    ensures Lines(t) == [StripCr(t[..k])] + Lines(t[k + 1..])
  {
  }

  lemma LowerEachCons(l: string, ls: seq<string>)
    ensures LowerEach([l] + ls) == [AsciiLower(l)] + LowerEach(ls)
  {
    assert ([l] + ls)[1..] == ls;
  }

  /** Folding the text before splitting it gives the folded lines. */
  lemma {:induction false} LinesOfLower(t: string)
    ensures Lines(AsciiLower(t)) == LowerEach(Lines(t))
    decreases |t|
  {
    if t != [] {
      var k := NewlineIndex(t);
      if k < |t| {
        LinesOfLowerHead(t, k);
        LinesOfLower(t[k + 1..]);
        LinesStep(t, k);
        LowerEachCons(StripCr(t[..k]), Lines(t[k + 1..]));
      } else {
        LinesOfLowerLast(t);
      }
    }
  }
}
