/** Substring search through SQL LIKE: the pattern escaper against the operator's meaning. */
module Like {
  import opened Text

  /** The escaper: three whole-text replacements, one after another. */
  function EscapeLike(s: string): string {
    ReplaceAll(ReplaceAll(ReplaceAll(s, '\\', "\\\\"), '%', "\\%"), '_', "\\_")
  }

  function EscapeLikeChar(c: char): string {
    if c == '\\' || c == '%' || c == '_' then ['\\', c] else [c]
  }

  function EscapeEach(s: string): string {
    if s == "" then "" else EscapeLikeChar(s[0]) + EscapeEach(s[1..])
  }

  /** LIKE folds ASCII letters only. */
  function Fold(c: char): char {
    if 'A' <= c <= 'Z' then c - 'A' + 'a' else c
  }

  /** Equal, or the two cases of one ASCII letter. */
  predicate SameLetter(a: char, b: char) {
    a == b || ('A' <= a <= 'Z' && b as int == a as int + 32) || ('A' <= b <= 'Z' && a as int == b as int + 32)
  }

  lemma FoldIsCase(a: char, b: char)
    ensures Fold(a) == Fold(b) <==> SameLetter(a, b)
  {}

  predicate SameText(a: string, b: string) {
    |a| == |b| && forall i :: 0 <= i < |a| ==> SameLetter(a[i], b[i])
  }

  /** t LIKE p ESCAPE '\' */
  predicate Matches(p: string, t: string)
    decreases |p| + |t|
  {
    if p == "" then t == ""
    else if p[0] == '\\' then |p| > 1 && t != "" && Fold(p[1]) == Fold(t[0]) && Matches(p[2..], t[1..])
    else if p[0] == '%' then Matches(p[1..], t) || (t != "" && Matches(p, t[1..]))
    else if p[0] == '_' then t != "" && Matches(p[1..], t[1..])
    else t != "" && Fold(p[0]) == Fold(t[0]) && Matches(p[1..], t[1..])
  }

  predicate OccursAt(q: string, t: string, k: nat) {
    k + |q| <= |t| && SameText(t[k..k + |q|], q)
  }

  /** q occurs in t, up to the case of ASCII letters. */
  ghost predicate Occurs(q: string, t: string) {
    exists k: nat :: OccursAt(q, t, k)
  }

  // ---------- the replacements do not disturb each other ----------

  lemma {:induction false} ReplaceAllAppend(a: string, b: string, c: char, new': string)
    ensures ReplaceAll(a + b, c, new') == ReplaceAll(a, c, new') + ReplaceAll(b, c, new')
  {
    if a == "" {
      assert a + b == b;
    } else {
      assert (a + b)[1..] == a[1..] + b;
      ReplaceAllAppend(a[1..], b, c, new');
    }
  }

  lemma ReplaceOne(x: char, c: char, new': string)
    ensures ReplaceAll([x], c, new') == if x == c then new' else [x]
  {
    assert [x][1..] == "";
  }

  lemma ReplaceTwo(x: char, y: char, c: char, new': string)
    requires x != c
    ensures ReplaceAll([x, y], c, new') == [x] + if y == c then new' else [y]
  {
    assert [x, y] == [x] + [y];
    ReplaceAllAppend([x], [y], c, new');
    ReplaceOne(x, c, new');
    ReplaceOne(y, c, new');
    assert [x] + (if y == c then new' else [y]) == ReplaceAll([x], c, new') + ReplaceAll([y], c, new');
  }

  lemma EscapeOneChar(x: char)
    ensures EscapeLike([x]) == EscapeLikeChar(x)
  {
    hide ReplaceAll;
    ReplaceOne(x, '\\', "\\\\");
    if x == '\\' {
      assert ['\\', '\\'] == ['\\'] + ['\\'];
      ReplaceTwo('\\', '\\', '%', "\\%");
      ReplaceTwo('\\', '\\', '_', "\\_");
    } else {
      ReplaceOne(x, '%', "\\%");
      if x == '%' {
        assert ['\\', '%'] == ['\\'] + ['%'];
        ReplaceTwo('\\', '%', '_', "\\_");
      } else {
        ReplaceOne(x, '_', "\\_");
      }
    }
  }

  /** The three sequential replacements amount to escaping each character once. */
  lemma {:induction false} EscapeLikeIsPerCharacter(s: string)
    ensures EscapeLike(s) == EscapeEach(s)
  {
    if s != "" {
      hide ReplaceAll, EscapeLikeChar;
      assert s == [s[0]] + s[1..];
      var a, b := ReplaceAll([s[0]], '\\', "\\\\"), ReplaceAll(s[1..], '\\', "\\\\");
      ReplaceAllAppend([s[0]], s[1..], '\\', "\\\\");
      ReplaceAllAppend(a, b, '%', "\\%");
      ReplaceAllAppend(ReplaceAll(a, '%', "\\%"), ReplaceAll(b, '%', "\\%"), '_', "\\_");
      EscapeOneChar(s[0]);
      EscapeLikeIsPerCharacter(s[1..]);
    }
  }

  // ---------- what the pattern matches ----------

  lemma {:induction false} PercentMatchesAll(t: string)
    ensures Matches("%", t)
  {
    if t != "" {
      PercentMatchesAll(t[1..]);
    }
  }

  lemma EscapedCharMatches(c: char, p: string, t: string)
    ensures Matches(EscapeLikeChar(c) + p, t) <==> t != "" && Fold(c) == Fold(t[0]) && Matches(p, t[1..])
  {
    var e := EscapeLikeChar(c) + p;
    assert e[|EscapeLikeChar(c)|..] == p;
  }

  lemma {:induction false} EscapedPrefixMatches(q: string, t: string)
    ensures Matches(EscapeEach(q) + "%", t) <==> OccursAt(q, t, 0)
  {
    hide Matches, Fold;
    if q == "" {
      assert EscapeEach(q) + "%" == "%";
      PercentMatchesAll(t);
    } else {
      var p := EscapeEach(q[1..]) + "%";
      assert EscapeEach(q) + "%" == EscapeLikeChar(q[0]) + p;
      EscapedCharMatches(q[0], p, t);
      if t != "" {
        EscapedPrefixMatches(q[1..], t[1..]);
        OccursAtHead(q, t);
      }
    }
  }

  lemma OccursAtHead(q: string, t: string)
    requires q != "" && t != ""
    ensures OccursAt(q, t, 0) <==> Fold(q[0]) == Fold(t[0]) && OccursAt(q[1..], t[1..], 0)
  {
    hide SameLetter;
    FoldIsCase(q[0], t[0]);
    if |q| <= |t| {
      assert t[1..][0..|q| - 1] == t[1..|q|];
      SameLetterBothWays(q[0], t[0]);
      if SameLetter(q[0], t[0]) && OccursAt(q[1..], t[1..], 0) {
        forall i | 0 <= i < |q|
          ensures SameLetter(t[0..|q|][i], q[i])
        {
          if i > 0 {
            assert SameLetter(t[1..|q|][i - 1], q[1..][i - 1]);
          }
        }
      }
      if OccursAt(q, t, 0) {
        forall i | 0 <= i < |q| - 1
          ensures SameLetter(t[1..|q|][i], q[1..][i])
        {
          assert SameLetter(t[0..|q|][i + 1], q[i + 1]);
        }
        assert SameLetter(t[0..|q|][0], q[0]);
      }
    }
  }

  lemma SameLetterBothWays(a: char, b: char)
    ensures SameLetter(a, b) <==> SameLetter(b, a)
  {}

  lemma {:induction false} PercentSkips(p: string, t: string)
    ensures Matches("%" + p, t) <==> exists k :: 0 <= k <= |t| && Matches(p, t[k..])
  {
    assert ("%" + p)[1..] == p;
    assert t[0..] == t;
    if t != "" {
      PercentSkips(p, t[1..]);
      assert forall k :: 0 <= k <= |t| - 1 ==> t[1..][k..] == t[k + 1..];
      assert (exists k :: 0 <= k <= |t| && Matches(p, t[k..])) ==>
          Matches(p, t) || exists k :: 0 <= k <= |t| - 1 && Matches(p, t[1..][k..]) by {
        if exists k :: 0 <= k <= |t| && Matches(p, t[k..]) {
          var k :| 0 <= k <= |t| && Matches(p, t[k..]);
          assert k > 0 ==> t[1..][k - 1..] == t[k..];
        }
      }
    }
  }

  /** Searching for q with LIKE finds exactly the texts that contain q, whatever percent signs,
      underscores and backslashes either holds. */
  lemma SearchMeansSubstring(q: string, t: string)
    ensures Matches("%" + EscapeLike(q) + "%", t) <==> Occurs(q, t)
  {
    hide Matches, EscapeEach, SameText;
    EscapeLikeIsPerCharacter(q);
    var p := EscapeEach(q) + "%";
    assert "%" + EscapeLike(q) + "%" == "%" + p;
    PercentSkips(p, t);
    forall k: nat | k <= |t|
      ensures Matches(p, t[k..]) <==> OccursAt(q, t, k)
    {
      EscapedPrefixMatches(q, t[k..]);
      assert k + |q| <= |t| ==> t[k..][0..|q|] == t[k..k + |q|];
    }
    if Occurs(q, t) {
      var k: nat :| OccursAt(q, t, k);
      assert Matches(p, t[k..]);
    }
  }
}
