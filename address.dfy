/**
 * clean_address: a missing address becomes "", otherwise the text is
 * stripped, every "(" ... ")" span matched by the regular expression
 * \(.*?\) is deleted, every run of whitespace (\s+) becomes one space, and
 * the result is stripped again. Whitespace is Python's str.isspace, which is
 * also what \s and str.strip use for str values.
 */
module Address {
  import opened Common

  /** str.isspace for one character. */
  predicate IsSpace(c: char) {
    var n := c as int;
    || (0x09 <= n <= 0x0D) || (0x1C <= n <= 0x20) || n == 0x85 || n == 0xA0 || n == 0x1680
    || (0x2000 <= n <= 0x200A) || n == 0x2028 || n == 0x2029 || n == 0x202F || n == 0x205F || n == 0x3000
  }

  function NotSpace(): char -> bool {
    (c: char) => !IsSpace(c)
  }

  /** s.lstrip(): the longest suffix of s that does not start with whitespace. */
  function StripLeft(s: string): (r: string)
    ensures |r| <= |s| && r == s[|s| - |r|..]
    ensures r == [] || !IsSpace(r[0])
    ensures forall i :: 0 <= i < |s| - |r| ==> IsSpace(s[i])
    decreases |s|
  {
    if s != [] && IsSpace(s[0]) then StripLeft(s[1..]) else s
  }

  /** s.rstrip(): the longest prefix of s that does not end with whitespace. */
  function StripRight(s: string): (r: string)
    ensures |r| <= |s| && r == s[..|r|]
    ensures r == [] || !IsSpace(r[|r| - 1])
    ensures forall i :: |r| <= i < |s| ==> IsSpace(s[i])
    decreases |s|
  {
    if s != [] && IsSpace(s[|s| - 1]) then StripRight(s[..|s| - 1]) else s
  }

  /** s.strip(). */
  function Strip(s: string): string {
    StripRight(StripLeft(s))
  }

  /** Where the lazy .*?\) that follows a "(" ends when the scan resumes at
      k: the first ")" from k on, provided no newline (which . does not
      match) comes before it. */
  function CloseParen(s: string, k: nat): (r: Option<nat>)
    ensures r.Some? ==> k <= r.value < |s| && s[r.value] == ')'
    ensures r.Some? ==> forall m :: k <= m < r.value ==> s[m] != ')' && s[m] != '\n'
    ensures r.None? ==> forall m :: k <= m < |s| && s[m] == ')' ==> exists n :: k <= n < m && s[n] == '\n'
    decreases |s| - k
  {
    if k >= |s| then None
    else if s[k] == '\n' then None
    else if s[k] == ')' then Some(k)
    else CloseParen(s, k + 1)
  }

  /** re.sub(r"\(.*?\)", "", s): scanning left to right, each "(" that has a
      closing ")" before any newline is deleted together with everything up
      to that ")", and the scan resumes after it. */
  function RemoveParens(s: string): string
    decreases |s|
  {
    if s == [] then []
    else if s[0] == '(' && CloseParen(s, 1).Some? then RemoveParens(s[CloseParen(s, 1).value + 1..])
    else [s[0]] + RemoveParens(s[1..])
  }

  /** re.sub(r"\s+", " ", s): every maximal run of whitespace becomes " ". */
  function CollapseSpace(s: string): string
    decreases |s|
  {
    if s == [] then []
    else if IsSpace(s[0]) then [' '] + CollapseSpace(StripLeft(s[1..]))
    else [s[0]] + CollapseSpace(s[1..])
  }

  /** clean_address(addr); None stands for NaN / None. */
  function CleanAddress(addr: Option<string>): (r: string)
    ensures addr.None? ==> r == ""
  {
    match addr
    case None => ""
    case Some(s) => Strip(CollapseSpace(RemoveParens(Strip(s))))
  }

  // ---------------------------------------------------------------------
  // Shapes of strings

  ghost predicate NoEdgeSpace(s: string) {
    s == [] || (!IsSpace(s[0]) && !IsSpace(s[|s| - 1]))
  }

  ghost predicate SpacesAreBlank(s: string) {
    forall i :: 0 <= i < |s| && IsSpace(s[i]) ==> s[i] == ' '
  }

  ghost predicate NoDoubleSpace(s: string) {
    forall i :: 0 <= i < |s| - 1 ==> !(IsSpace(s[i]) && IsSpace(s[i + 1]))
  }

  /** No "(" has a ")" anywhere after it. */
  ghost predicate ParenFree(s: string) {
    forall i, j :: 0 <= i < j < |s| && s[i] == '(' ==> s[j] != ')'
  }

  lemma SliceShapes(s: string, a: nat, b: nat)
    requires a <= b <= |s|
    ensures SpacesAreBlank(s) ==> SpacesAreBlank(s[a..b])
    ensures NoDoubleSpace(s) ==> NoDoubleSpace(s[a..b])
    ensures ParenFree(s) ==> ParenFree(s[a..b])
    ensures '\n' !in s ==> '\n' !in s[a..b]
  {
    var t := s[a..b];
    if NoDoubleSpace(s) {
      forall i | 0 <= i < |t| - 1 ensures !(IsSpace(t[i]) && IsSpace(t[i + 1])) {
        assert t[i] == s[a + i] && t[i + 1] == s[a + i + 1];
      }
    }
    if ParenFree(s) {
      forall i, j | 0 <= i < j < |t| && t[i] == '(' ensures t[j] != ')' {
        assert t[i] == s[a + i] && t[j] == s[a + j];
      }
    }
    if '\n' in t {
      var i :| 0 <= i < |t| && t[i] == '\n';
      assert s[a + i] == '\n';
    }
  }

  lemma StripShapes(s: string)
    ensures NoEdgeSpace(Strip(s))
    ensures SpacesAreBlank(s) ==> SpacesAreBlank(Strip(s))
    ensures NoDoubleSpace(s) ==> NoDoubleSpace(Strip(s))
    ensures ParenFree(s) ==> ParenFree(Strip(s))
    ensures '\n' !in s ==> '\n' !in Strip(s)
  {
    StripLeftShapes(s);
    StripRightShapes(StripLeft(s));
    StripEdges(s);
  }

  /** lstrip keeps every shape. */
  lemma StripLeftShapes(s: string)
    ensures SpacesAreBlank(s) ==> SpacesAreBlank(StripLeft(s))
    ensures NoDoubleSpace(s) ==> NoDoubleSpace(StripLeft(s))
    ensures ParenFree(s) ==> ParenFree(StripLeft(s))
    ensures '\n' !in s ==> '\n' !in StripLeft(s)
  {
    var l := StripLeft(s);
    SuffixKeepsShapes(s, |s| - |l|, l);
  }

  /** The suffix of s from a keeps every shape s has. */
  lemma SuffixKeepsShapes(s: string, a: nat, t: string)
    requires a <= |s| && t == s[a..]
    ensures SpacesAreBlank(s) ==> SpacesAreBlank(t)
    ensures NoDoubleSpace(s) ==> NoDoubleSpace(t)
    ensures ParenFree(s) ==> ParenFree(t)
    ensures '\n' !in s ==> '\n' !in t
  {
    assert t == s[a..|s|];
    SliceShapes(s, a, |s|);
  }

  /** rstrip keeps every shape. */
  lemma StripRightShapes(s: string)
    ensures SpacesAreBlank(s) ==> SpacesAreBlank(StripRight(s))
    ensures NoDoubleSpace(s) ==> NoDoubleSpace(StripRight(s))
    ensures ParenFree(s) ==> ParenFree(StripRight(s))
    ensures '\n' !in s ==> '\n' !in StripRight(s)
  {
    SliceShapes(s, 0, |StripRight(s)|);
  }

  lemma StripEdges(s: string)
    ensures NoEdgeSpace(Strip(s))
  {
    var l := StripLeft(s);
    var r := StripRight(l);
    if r != [] {
      assert r[0] == l[0];
    }
  }

  /** Strip leaves a string without edge whitespace as it is. */
  lemma StripIdentity(s: string)
    requires NoEdgeSpace(s)
    ensures Strip(s) == s
  {
  }

  // ---------------------------------------------------------------------
  // Removing parenthesised spans

  lemma {:induction false} RemoveParensChars(s: string)
    ensures forall c :: c in RemoveParens(s) ==> c in s
    decreases |s|
  {
    if s != [] {
      if s[0] == '(' && CloseParen(s, 1).Some? {
        var k := CloseParen(s, 1).value;
        RemoveParensChars(s[k + 1..]);
        forall c | c in s[k + 1..] ensures c in s {
          var i :| 0 <= i < |s[k + 1..]| && s[k + 1..][i] == c;
          assert s[k + 1 + i] == c;
        }
      } else {
        RemoveParensChars(s[1..]);
      }
    }
  }

  /** Prefixing a character keeps a string paren-free unless it is a "("
      placed before a ")". */
  lemma ConsParenFree(c: char, t: string)
    requires ParenFree(t)
    requires c == '(' ==> ')' !in t
    ensures ParenFree([c] + t)
  {
    var r := [c] + t;
    forall i, j | 0 <= i < j < |r| && r[i] == '(' ensures r[j] != ')' {
      assert r[j] == t[j - 1];
      if i > 0 {
        assert r[i] == t[i - 1];
      } else {
        assert r[j] in t;
      }
    }
  }

  /** Without newlines, a "(" that finds no closing ")" has none after it. */
  lemma NoCloseWithoutNewline(s: string, k: nat)
    requires '\n' !in s && CloseParen(s, k).None?
    ensures forall m :: k <= m < |s| ==> s[m] != ')'
  {
    forall n | 0 <= n < |s| ensures s[n] != '\n' {
      assert s[n] in s;
    }
  }

  /** Without newlines, no "(" of the result is followed by a ")". */
  lemma {:induction false} RemoveParensParenFree(s: string)
    requires '\n' !in s
    ensures ParenFree(RemoveParens(s))
    decreases |s|
  {
    if s != [] {
      if s[0] == '(' && CloseParen(s, 1).Some? {
        var k := CloseParen(s, 1).value;
        SliceShapes(s, k + 1, |s|);
        RemoveParensParenFree(s[k + 1..]);
      } else {
        SliceShapes(s, 1, |s|);
        RemoveParensParenFree(s[1..]);
        RemoveParensChars(s[1..]);
        if s[0] == '(' {
          NoCloseWithoutNewline(s, 1);
          assert ')' !in s[1..];
        }
        ConsParenFree(s[0], RemoveParens(s[1..]));
      }
    }
  }

  /** A string with no "(" before a ")" is left as it is. */
  lemma {:induction false} RemoveParensIdentity(s: string)
    requires ParenFree(s)
    ensures RemoveParens(s) == s
    decreases |s|
  {
    if s != [] {
      if s[0] == '(' {
        assert forall m :: 1 <= m < |s| ==> s[m] != ')';
        assert CloseParen(s, 1).None?;
      }
      SliceShapes(s, 1, |s|);
      RemoveParensIdentity(s[1..]);
      assert s == [s[0]] + s[1..];
    }
  }

  /** Text before the first "(" is kept as it is. */
  lemma {:induction false} RemoveParensPlain(a: string, t: string)
    requires '(' !in a
    ensures RemoveParens(a + t) == a + RemoveParens(t)
    decreases |a|
  {
    if a == [] {
      assert a + t == t;
    } else {
      assert (a + t)[0] == a[0] && (a + t)[1..] == a[1..] + t;
      RemoveParensPlain(a[1..], t);
      assert a == [a[0]] + a[1..];
    }
  }

  /** The lazy match from a "(" ends at the first ")" when no newline or
      ")" comes before it. */
  lemma {:induction false} CloseParenAt(s: string, k: nat, e: nat)
    requires k <= e < |s| && s[e] == ')'
    requires forall m :: k <= m < e ==> s[m] != ')' && s[m] != '\n'
    ensures CloseParen(s, k) == Some(e)
    decreases e - k
  {
    if k < e {
      CloseParenAt(s, k + 1, e);
    }
  }

  /** A span "(" m ")" is deleted, when m has no ")" and no newline, and the
      text after it is processed on its own. */
  lemma RemoveParensSpan(m: string, t: string)
    requires ')' !in m && '\n' !in m
    ensures RemoveParens(['('] + m + [')'] + t) == RemoveParens(t)
  {
    var s := ['('] + m + [')'] + t;
    forall n | 1 <= n < |m| + 1 ensures s[n] != ')' && s[n] != '\n' {
      assert s[n] == m[n - 1];
    }
    CloseParenAt(s, 1, |m| + 1);
    assert s[|m| + 2..] == t;
  }

  // ---------------------------------------------------------------------
  // Collapsing whitespace

  lemma {:induction false} CollapseSpaceChars(s: string)
    ensures forall c :: c in CollapseSpace(s) ==> c in s || c == ' '
    decreases |s|
  {
    if s != [] {
      if IsSpace(s[0]) {
        var l := StripLeft(s[1..]);
        CollapseSpaceChars(l);
        forall c | c in l ensures c in s {
          var i :| 0 <= i < |l| && l[i] == c;
          assert s[1 + |s[1..]| - |l| + i] == c;
        }
      } else {
        CollapseSpaceChars(s[1..]);
      }
    }
  }

  /** The result begins with whitespace exactly when s does. */
  lemma CollapseSpaceHead(s: string)
    ensures CollapseSpace(s) == [] <==> s == []
    ensures s != [] && !IsSpace(s[0]) ==> CollapseSpace(s)[0] == s[0]
    ensures s != [] && IsSpace(s[0]) ==> CollapseSpace(s)[0] == ' '
  {
  }

  /** Every whitespace of the result is a single " " between non-spaces. */
  lemma {:induction false} CollapseSpaceShape(s: string)
    ensures SpacesAreBlank(CollapseSpace(s)) && NoDoubleSpace(CollapseSpace(s))
    decreases |s|
  {
    if s != [] {
      var t := if IsSpace(s[0]) then StripLeft(s[1..]) else s[1..];
      var c := if IsSpace(s[0]) then ' ' else s[0];
      CollapseSpaceShape(t);
      CollapseSpaceHead(t);
      var r := [c] + CollapseSpace(t);
      assert r == CollapseSpace(s);
      forall i | 0 <= i < |r| - 1 ensures !(IsSpace(r[i]) && IsSpace(r[i + 1])) {
        if i > 0 {
          assert r[i] == CollapseSpace(t)[i - 1] && r[i + 1] == CollapseSpace(t)[i];
        }
      }
      forall i | 0 <= i < |r| && IsSpace(r[i]) ensures r[i] == ' ' {
        if i > 0 {
          assert r[i] == CollapseSpace(t)[i - 1];
        }
      }
    }
  }

  /** Leading whitespace carries no text. */
  lemma {:induction false} StripLeftKeepsText(u: string)
    ensures Filter(StripLeft(u), NotSpace()) == Filter(u, NotSpace())
    decreases |u|
  {
    if u != [] && IsSpace(u[0]) {
      StripLeftKeepsText(u[1..]);
      assert !NotSpace()(u[0]);
      assert Filter(u, NotSpace()) == [] + Filter(u[1..], NotSpace());
    }
  }

  /** Collapsing keeps every non-whitespace character, in order. */
  lemma {:induction false} CollapseSpaceKeepsText(s: string)
    ensures Filter(CollapseSpace(s), NotSpace()) == Filter(s, NotSpace())
    decreases |s|
  {
    if s != [] {
      var u := s[1..];
      var c := if IsSpace(s[0]) then ' ' else s[0];
      var t := if IsSpace(s[0]) then StripLeft(u) else u;
      var r := CollapseSpace(s);
      assert r == [c] + CollapseSpace(t);
      assert r[0] == c && r[1..] == CollapseSpace(t);
      CollapseSpaceKeepsText(t);
      if IsSpace(s[0]) {
        StripLeftKeepsText(u);
      }
      assert NotSpace()(c) == NotSpace()(s[0]);
    }
  }

  /** A string whose whitespace is already single blanks is left as it is. */
  lemma {:induction false} CollapseSpaceIdentity(s: string)
    requires SpacesAreBlank(s) && NoDoubleSpace(s)
    ensures CollapseSpace(s) == s
    decreases |s|
  {
    if s != [] {
      SliceShapes(s, 1, |s|);
      assert s[0] == ' ' || !IsSpace(s[0]);
      if IsSpace(s[0]) && |s| > 1 {
        assert !IsSpace(s[1]);
      }
      CollapseSpaceIdentity(s[1..]);
      assert s == [s[0]] + s[1..];
    }
  }

  /** Stripping a run of whitespace off the front of t leaves t. */
  lemma {:induction false} StripLeftRun(w: string, t: string)
    requires forall i :: 0 <= i < |w| ==> IsSpace(w[i])
    requires t == [] || !IsSpace(t[0])
    ensures StripLeft(w + t) == t
    decreases |w|
  {
    if w == [] {
      assert w + t == t;
    } else {
      assert (w + t)[0] == w[0] && (w + t)[1..] == w[1..] + t;
      StripLeftRun(w[1..], t);
    }
  }

  /** A maximal run of whitespace, however long, becomes one blank. */
  lemma CollapseSpaceRun(w: string, t: string)
    requires w != [] && forall i :: 0 <= i < |w| ==> IsSpace(w[i])
    requires t == [] || !IsSpace(t[0])
    ensures CollapseSpace(w + t) == [' '] + CollapseSpace(t)
  {
    assert (w + t)[0] == w[0] && (w + t)[1..] == w[1..] + t;
    StripLeftRun(w[1..], t);
  }

  lemma {:induction false} CollapseSpaceParenFree(s: string)
    requires ParenFree(s)
    ensures ParenFree(CollapseSpace(s))
    decreases |s|
  {
    if s != [] {
      var t := if IsSpace(s[0]) then StripLeft(s[1..]) else s[1..];
      var c := if IsSpace(s[0]) then ' ' else s[0];
      SliceShapes(s, |s| - |t|, |s|);
      CollapseSpaceParenFree(t);
      CollapseSpaceChars(t);
      if c == '(' {
        forall m | 0 <= m < |t| ensures t[m] != ')' {
          assert t[m] == s[|s| - |t| + m];
        }
        assert ')' !in t;
      }
      ConsParenFree(c, CollapseSpace(t));
      assert CollapseSpace(s) == [c] + CollapseSpace(t);
    }
  }

  // ---------------------------------------------------------------------
  // clean_address

  /** The result has no leading or trailing whitespace, every whitespace in
      it is a single " ", and no two whitespace characters are adjacent. */
  lemma CleanAddressShape(addr: Option<string>)
    ensures var r := CleanAddress(addr);
      NoEdgeSpace(r) && SpacesAreBlank(r) && NoDoubleSpace(r)
  {
    if addr.Some? {
      var c := CollapseSpace(RemoveParens(Strip(addr.value)));
      CollapseSpaceShape(RemoveParens(Strip(addr.value)));
      StripShapes(c);
    }
  }

  /** Without newlines, no "(" of the result has a ")" after it. */
  lemma CleanAddressParenFree(s: string)
    requires '\n' !in s
    ensures ParenFree(CleanAddress(Some(s)))
  {
    StripShapes(s);
    RemoveParensParenFree(Strip(s));
    CollapseSpaceParenFree(RemoveParens(Strip(s)));
    StripShapes(CollapseSpace(RemoveParens(Strip(s))));
  }

  /** Without newlines, cleaning a cleaned address changes nothing. */
  lemma CleanAddressIdempotent(s: string)
    requires '\n' !in s
    ensures CleanAddress(Some(CleanAddress(Some(s)))) == CleanAddress(Some(s))
  {
    var r := CleanAddress(Some(s));
    CleanAddressShape(Some(s));
    CleanAddressParenFree(s);
    StripIdentity(r);
    RemoveParensIdentity(r);
    CollapseSpaceIdentity(r);
  }

  /** The first pass over "(a\nb)": the span is kept, the newline becomes
      a blank. */
  lemma NewlineFirstPass()
    ensures RemoveParens("(a\nb)") == "(a\nb)"
    ensures CollapseSpace("(a\nb)") == "(a b)"
  {
    NewlineKeptSpan();
    NewlineCollapsed();
  }

  /** A character other than "(" is kept by the paren removal. */
  lemma RemoveParensKeep(c: char, t: string)
    requires c != '('
    ensures RemoveParens([c] + t) == [c] + RemoveParens(t)
  {
    assert ([c] + t)[1..] == t;
  }

  /** A character other than whitespace is kept by the collapsing. */
  lemma CollapseSpaceKeep(c: char, t: string)
    requires !IsSpace(c)
    ensures CollapseSpace([c] + t) == [c] + CollapseSpace(t)
  {
    assert ([c] + t)[1..] == t;
  }

  /** A single whitespace before text becomes one blank. */
  lemma CollapseSpaceBlank(c: char, t: string)
    requires IsSpace(c) && (t == [] || !IsSpace(t[0]))
    ensures CollapseSpace([c] + t) == [' '] + CollapseSpace(t)
  {
    assert ([c] + t)[1..] == t;
  }

  lemma NewlineKeptSpan()
    ensures RemoveParens("(a\nb)") == "(a\nb)"
  {
    var s := "(a\nb)";
    assert s == ['('] + "a\nb)";
    assert CloseParen(s, 2) == None;
    assert CloseParen(s, 1) == None;
    RemoveParensKeep(')', []);
    RemoveParensKeep('b', ")");
    RemoveParensKeep('\n', "b)");
    RemoveParensKeep('a', "\nb)");
    assert RemoveParens(s) == [s[0]] + RemoveParens(s[1..]);
    assert s[1..] == "a\nb)";
  }

  lemma NewlineCollapsed()
    ensures CollapseSpace("(a\nb)") == "(a b)"
  {
    assert !IsSpace('(') && !IsSpace('a') && IsSpace('\n') && !IsSpace('b') && !IsSpace(')');
    CollapseSpaceKeep(')', []);
    CollapseSpaceKeep('b', ")");
    CollapseSpaceBlank('\n', "b)");
    CollapseSpaceKeep('a', "\nb)");
    CollapseSpaceKeep('(', "a\nb)");
  }

  /** The second pass over "(a b)": the whole span goes. */
  lemma BlankSecondPass()
    ensures RemoveParens("(a b)") == ""
  {
    var t := "(a b)";
    assert CloseParen(t, 4) == Some(4);
    assert CloseParen(t, 3) == Some(4);
    assert CloseParen(t, 2) == Some(4);
    assert CloseParen(t, 1) == Some(4);
    assert t[5..] == [];
  }

  /** With a newline inside the parentheses the first pass keeps the span
      (. does not match a newline) but turns the newline into a blank, so a
      second pass deletes it: the newline condition above is needed. */
  lemma NewlineInParentheses()
    ensures CleanAddress(Some("(a\nb)")) == "(a b)"
    ensures CleanAddress(Some("(a b)")) == ""
  {
    StripIdentity("(a\nb)");
    StripIdentity("(a b)");
    NewlineFirstPass();
    BlankSecondPass();
  }
}
