/** The glob compiler preserves meaning, and exactly when it does. */
module GlobMeaning {
  import opened Options
  import opened Text
  import opened Regex
  import opened Globs
  import opened GlobReading
  import opened GlobShapes

  /** One alternative built from a pattern matches a suffix exactly when the pattern denotes it. */
  lemma {:induction false} ItemsMatch(pat: string, s: string, i: nat)
    requires '|' !in pat && !HasCount(pat) && i <= |s|
    ensures MatchesFrom(Items(pat) + [End], s, i) <==> Denotes(pat, s[i..], false)
    decreases |pat|
  {
    var items := Items(pat) + [End];
    if pat == "" {
      assert items[1..] == [];
    } else {
      var n := StarsWidth(pat);
      NoCountTail(pat, n);
      assert items[1..] == Items(pat[n..]) + [End];
      if pat[0] == '*' {
        StarMatch(pat, s, i);
      } else if i < |s| {
        ItemsMatch(pat[1..], s, i + 1);
        assert s[i..][1..] == s[i + 1..];
      }
    }
  }

  /** A starred item may run from i to k exactly when the text in between has no stop character. */
  lemma RunAllowed(a: Atom, stop: char, s: string, i: nat, k: nat)
    requires i <= k <= |s| && ((a == Dot && stop == '\n') || a == NotChar(stop))
    ensures AllowsRun(a, s, i, k) <==> stop !in s[i..][..k - i]
  {
    assert s[i..][..k - i] == s[i..k];
    if stop !in s[i..k] {
      forall j | i <= j < k ensures AtomAllows(a, s[j]) {
        assert s[j] == s[i..k][j - i];
      }
    }
  }

  lemma {:induction false} StarMatch(pat: string, s: string, i: nat)
    requires '|' !in pat && !HasCount(pat) && i <= |s|
    requires pat != "" && pat[0] == '*'
    ensures MatchesFrom(Items(pat) + [End], s, i) <==> Denotes(pat, s[i..], false)
    decreases |pat|, 0
  {
    var n := StarsWidth(pat);
    var a := if OpensDouble(pat) then Dot else NotChar('/');
    var stop := if OpensDouble(pat) then '\n' else '/';
    var rest := Items(pat[n..]) + [End];
    NoCountTail(pat, n);
    assert Items(pat) + [End] == [Star(a)] + rest;
    forall k | i <= k <= |s|
      ensures AllowsRun(a, s, i, k) <==> stop !in s[i..][..k - i]
      ensures MatchesFrom(rest, s, k) <==> Denotes(pat[n..], s[i..][k - i..], false)
    {
      RunAllowed(a, stop, s, i, k);
      ItemsMatch(pat[n..], s, k);
      assert s[i..][k - i..] == s[k..];
    }
    StarRuns(a, rest, s, i);
    if Denotes(pat, s[i..], false) {
      var m :| 0 <= m <= |s[i..]| && stop !in s[i..][..m] && Denotes(pat[n..], s[i..][m..], false);
      assert MatchesFrom(rest, s, m + i);
    }
  }

  // ---------- the algebra of meanings ----------

  /** Where two patterns may be put side by side without their stars merging. */
  predicate Seam(a: string, b: string) {
    !(a != "" && a[|a| - 1] == '*' && StartsWith(b, '*'))
  }

  lemma {:induction false} DenotesJoin(a: string, b: string, u: string, v: string, newlines: bool)
    requires Seam(a, b)
    requires Denotes(a, u, newlines) && Denotes(b, v, newlines)
    ensures Denotes(a + b, u + v, newlines)
    decreases |a|
  {
    if a == "" {
      assert a + b == b && u + v == v;
    } else {
      var n := if OpensDouble(a) then 2 else 1;
      assert (a + b)[n..] == a[n..] + b;
      assert OpensDouble(a + b) == OpensDouble(a);
      if a[0] == '*' {
        var stop := if OpensDouble(a) then '\n' else '/';
        var k :| 0 <= k <= |u| && ((newlines && OpensDouble(a)) || stop !in u[..k])
                 && Denotes(a[n..], u[k..], newlines);
        DenotesJoin(a[n..], b, u[k..], v, newlines);
        assert (u + v)[..k] == u[..k];
        assert (u + v)[k..] == u[k..] + v;
      } else {
        DenotesJoin(a[1..], b, u[1..], v, newlines);
        assert (u + v)[1..] == u[1..] + v;
      }
    }
  }

  lemma {:induction false} DenotesSplit(a: string, b: string, s: string, newlines: bool) returns (k: nat)
    requires Seam(a, b)
    requires Denotes(a + b, s, newlines)
    ensures k <= |s| && Denotes(a, s[..k], newlines) && Denotes(b, s[k..], newlines)
    decreases |a|
  {
    if a == "" {
      assert a + b == b;
      k := 0;
    } else {
      var n := if OpensDouble(a) then 2 else 1;
      assert (a + b)[n..] == a[n..] + b;
      assert OpensDouble(a + b) == OpensDouble(a);
      var m := FirstTokenSplit(a + b, s, newlines);
      var j := DenotesSplit(a[n..], b, s[m..], newlines);
      k := m + j;
      assert s[m..][j..] == s[k..] && s[m..][..j] == s[m..k];
      FirstTokenJoin(a, s, m, k, newlines);
    }
  }

  /** May the first token of a pattern take exactly this text? */
  ghost predicate TokenTakes(pat: string, s: string, newlines: bool)
    requires pat != ""
  {
    if OpensDouble(pat) then newlines || '\n' !in s
    else if pat[0] == '*' then '/' !in s
    else |s| == 1 && (if pat[0] == '?' then s[0] != '/' else s[0] == pat[0])
  }

  lemma FirstTokenSplit(pat: string, s: string, newlines: bool) returns (m: nat)
    requires pat != "" && Denotes(pat, s, newlines)
    ensures m <= |s| && TokenTakes(pat, s[..m], newlines)
    ensures Denotes(pat[if OpensDouble(pat) then 2 else 1..], s[m..], newlines)
  {
    if OpensDouble(pat) {
      m :| 0 <= m <= |s| && (newlines || '\n' !in s[..m]) && Denotes(pat[2..], s[m..], newlines);
    } else if pat[0] == '*' {
      m :| 0 <= m <= |s| && '/' !in s[..m] && Denotes(pat[1..], s[m..], newlines);
    } else {
      m := 1;
    }
  }

  lemma FirstTokenJoin(pat: string, s: string, m: nat, k: nat, newlines: bool)
    requires pat != "" && m <= k <= |s| && TokenTakes(pat, s[..m], newlines)
    requires Denotes(pat[if OpensDouble(pat) then 2 else 1..], s[m..k], newlines)
    ensures Denotes(pat, s[..k], newlines)
  {
    assert s[..k][..m] == s[..m] && s[..k][m..] == s[m..k];
  }

  /** On a subject without newlines the two readings of `**` are the same. */
  lemma {:induction false} NewlinesIrrelevant(pat: string, s: string)
    requires '\n' !in s || !HasDoubleStar(pat)
    ensures Denotes(pat, s, false) <==> Denotes(pat, s, true)
    decreases |pat|
  {
    if pat != "" {
      var n := if OpensDouble(pat) then 2 else 1;
      assert HasDoubleStar(pat[n..]) ==> HasDoubleStar(pat) by {
        if HasDoubleStar(pat[n..]) {
          var i :| 0 <= i < |pat[n..]| - 1 && pat[n..][i] == '*' && pat[n..][i + 1] == '*';
          assert pat[n + i] == '*' && pat[n + i + 1] == '*';
        }
      }
      assert OpensDouble(pat) ==> HasDoubleStar(pat);
      forall k | 0 <= k <= |s|
        ensures Denotes(pat[n..], s[k..], false) <==> Denotes(pat[n..], s[k..], true)
      {
        NewlinesIrrelevant(pat[n..], s[k..]);
      }
    }
  }

  lemma {:induction false} LiteralNeeded(pat: string, s: string, c: char, newlines: bool)
    requires Denotes(pat, s, newlines) && c in pat && c != '*' && c != '?'
    ensures c in s
    decreases |pat|
  {
    var n := if OpensDouble(pat) then 2 else 1;
    if pat[0] != c {
      assert c in pat[n..];
      if pat[0] == '*' {
        var k :| 0 <= k <= |s| && Denotes(pat[n..], s[k..], newlines);
        LiteralNeeded(pat[n..], s[k..], c, newlines);
      } else {
        LiteralNeeded(pat[1..], s[1..], c, newlines);
      }
    }
  }

  /** A shortest text a pattern denotes. */
  function Shortest(pat: string): (s: string)
    ensures forall c :: c in s ==> c in pat || c == 'x'
    ensures Denotes(pat, s, false) && Denotes(pat, s, true)
    decreases |pat|
  {
    if pat == "" then ""
    else if OpensDouble(pat) then
      var s := Shortest(pat[2..]);
      assert s[0..] == s;
      s
    else if pat[0] == '*' then
      var s := Shortest(pat[1..]);
      assert s[0..] == s;
      s
    else
      var s := Shortest(pat[1..]);
      assert ([if pat[0] == '?' then 'x' else pat[0]] + s)[1..] == s;
      [if pat[0] == '?' then 'x' else pat[0]] + s
  }

  // ---------- what a compiled glob matches ----------

  /** Without `|` and counts, the compiled expression matches exactly what the pattern denotes. */
  lemma CompiledMeaning(pat: string, s: string)
    requires '|' !in pat && !HasCount(pat)
    ensures MatchString(Expression(pat), s) <==> Denotes(pat, s, false)
  {
    var items := [Begin] + Items(pat) + [End];
    NoCountsFit(pat);
    OneAlternative(pat, s);
    assert items[1..] == Items(pat) + [End];
    ItemsMatch(pat, s, 0);
    assert s[0..] == s;
    assert AlternativeMatches(items, s) <==> MatchesFrom(items, s, 0);
  }

  // ---------- newlines and `**` ----------

  /** How often a slash directly follows a newline. */
  function Breaks(s: string): nat {
    if |s| < 2 then 0 else (if s[0] == '\n' && s[1] == '/' then 1 else 0) + Breaks(s[1..])
  }

  lemma {:induction false} BreaksConcat(u: string, v: string)
    ensures Breaks(u) + Breaks(v) <= Breaks(u + v) <= Breaks(u) + 1 + Breaks(v)
  {
    if u == "" {
      assert u + v == v;
    } else {
      assert (u + v)[1..] == u[1..] + v;
      BreaksConcat(u[1..], v);
      if |u| == 1 {
        assert u[1..] + v == v;
      }
    }
  }

  lemma {:induction false} NoBreaks(s: string)
    requires '\n' !in s || '/' !in s
    ensures Breaks(s) == 0
  {
    if |s| >= 2 {
      NoBreaks(s[1..]);
    }
  }

  /** Each token crosses at most one break when `**` stops at newlines. */
  lemma {:induction false} BreaksBounded(pat: string, s: string)
    requires Denotes(pat, s, false)
    ensures Breaks(s) <= |pat|
    decreases |pat|
  {
    if pat != "" {
      var n := if OpensDouble(pat) then 2 else 1;
      var k: nat;
      if pat[0] == '*' {
        k :| 0 <= k <= |s| && (if OpensDouble(pat) then '\n' else '/') !in s[..k] && Denotes(pat[n..], s[k..], false);
        NoBreaks(s[..k]);
      } else {
        k := 1;
      }
      BreaksBounded(pat[n..], s[k..]);
      BreaksConcat(s[..k], s[k..]);
      assert s[..k] + s[k..] == s;
    }
  }

  function ManyBreaks(n: nat): (s: string)
    ensures Breaks(s) >= n
    ensures forall c :: c in s ==> c == '\n' || c == '/'
  {
    if n == 0 then "" else
      BreaksConcat("\n/", ManyBreaks(n - 1));
      "\n/" + ManyBreaks(n - 1)
  }

  /** The first of two adjacent stars that no star precedes. */
  lemma FirstDoubleStar(pat: string) returns (i: nat)
    requires HasDoubleStar(pat)
    ensures i < |pat| - 1 && pat[i] == '*' && pat[i + 1] == '*' && (i > 0 ==> pat[i - 1] != '*')
  {
    i :| 0 <= i < |pat| - 1 && pat[i] == '*' && pat[i + 1] == '*';
    while i > 0 && pat[i - 1] == '*'
      invariant 0 <= i < |pat| - 1 && pat[i] == '*' && pat[i + 1] == '*'
    {
      i := i - 1;
    }
  }

  lemma DoubleTakesAll(b: string, middle: string)
    ensures Denotes("**" + b, middle + Shortest(b), true)
  {
    var v := middle + Shortest(b);
    assert ("**" + b)[2..] == b;
    assert v[|middle|..] == Shortest(b);
  }

  lemma PaddedDenotes(a: string, b: string, middle: string)
    requires Seam(a, "*")
    ensures Denotes(a + ("**" + b), Shortest(a) + (middle + Shortest(b)), true)
  {
    DoubleTakesAll(b, middle);
    DenotesJoin(a, "**" + b, Shortest(a), middle + Shortest(b), true);
  }

  lemma PaddedMisses(pat: string, u: string, v: string)
    ensures !Denotes(pat, u + (ManyBreaks(|pat| + 1) + v), false)
  {
    var middle := ManyBreaks(|pat| + 1);
    BreaksConcat(middle, v);
    BreaksConcat(u, middle + v);
    if Denotes(pat, u + (middle + v), false) {
      BreaksBounded(pat, u + (middle + v));
    }
  }

  /** A `**` really has a subject with newlines that the documentation accepts and the code does not. */
  lemma DoubleStarMissesNewlines(pat: string) returns (s: string)
    requires HasDoubleStar(pat) && '\\' !in pat
    ensures Denotes(pat, s, true) && !Denotes(pat, s, false) && '\\' !in s
  {
    var i := FirstDoubleStar(pat);
    var a, b := pat[..i], pat[i + 2..];
    var middle := ManyBreaks(|pat| + 1);
    s := Shortest(a) + (middle + Shortest(b));
    assert a + ("**" + b) == pat;
    PaddedDenotes(a, b, middle);
    PaddedMisses(pat, Shortest(a), Shortest(b));
  }

  // ---------- the theorems ----------

  /** What a compiled glob without `|` and counted repetition matches, path by path. */
  lemma MatchMeaning(pat: string, path: string)
    requires Compile(pat).Compiled? && '|' !in pat && !HasCount(pat)
    ensures Match(Compile(pat).glob, path) <==> Denotes(ToSlash(pat), ToSlash(path), false)
  {
    CompiledForm(pat);
    CountsSlash(pat);
    SlashedHasNoBackslash(pat);
    CompiledMeaning(ToSlash(pat), ToSlash(path));
  }

  /** The documented contract of a pattern on one path. */
  ghost predicate AsDocumented(pat: string, path: string)
    requires Compile(pat).Compiled?
  {
    Match(Compile(pat).glob, path) <==> Denotes(ToSlash(pat), ToSlash(path), true)
  }

  /** A pattern with `|` matches some text that its documented meaning excludes. */
  lemma BarBreaksContract(pat: string) returns (path: string)
    requires Compile(pat).Compiled? && '|' in pat
    ensures !AsDocumented(pat, path)
    ensures '\n' !in pat ==> '\n' !in path
  {
    var p := ToSlash(pat);
    CompiledForm(pat);
    CountsSlash(pat);
    SlashedHasNoBackslash(pat);
    path := BarMatches(p);
    SlashFree(path);
    if Denotes(p, path, true) {
      LiteralNeeded(p, path, '|', true);
    }
  }

  /** A counted repetition makes code and documentation differ on some path. */
  lemma CountBreaksContract(pat: string) returns (path: string)
    requires Compile(pat).Compiled? && '|' !in pat && HasCount(pat)
    ensures !AsDocumented(pat, path)
    ensures '\n' !in pat ==> '\n' !in path
  {
    var p := ToSlash(pat);
    CompiledForm(pat);
    CountsSlash(pat);
    SlashedHasNoBackslash(pat);
    path := CountTellsApart(p, true);
    SlashFree(path);
  }

  /**
   On newline-free paths a pattern keeps its documented meaning if and only if it holds neither `|` nor a
   counted repetition.
   */
  lemma FaithfulWithoutNewlines(pat: string)
    requires Compile(pat).Compiled? && '\n' !in pat
    ensures (forall path :: '\n' !in path ==> AsDocumented(pat, path)) <==> '|' !in pat && !HasCount(pat)
  {
    if '|' in pat {
      var path := BarBreaksContract(pat);
    } else if HasCount(pat) {
      var path := CountBreaksContract(pat);
    } else {
      forall path | '\n' !in path ensures AsDocumented(pat, path) {
        MatchMeaning(pat, path);
        SlashedHasNoBackslash(path);
        NewlinesIrrelevant(ToSlash(pat), ToSlash(path));
      }
    }
  }

  /** On all paths it does if and only if it holds neither `|` nor a counted repetition nor `**`. */
  lemma FaithfulEverywhere(pat: string)
    requires Compile(pat).Compiled?
    ensures (forall path :: AsDocumented(pat, path)) <==> '|' !in pat && !HasCount(pat) && !HasDoubleStar(pat)
  {
    DoubleStarSlash(pat);
    if '|' in pat {
      var path := BarBreaksContract(pat);
    } else if HasCount(pat) {
      var path := CountBreaksContract(pat);
    } else if HasDoubleStar(pat) {
      SlashedHasNoBackslash(pat);
      var path := DoubleStarMissesNewlines(ToSlash(pat));
      SlashFree(path);
      MatchMeaning(pat, path);
      assert !AsDocumented(pat, path);
    } else {
      forall path ensures AsDocumented(pat, path) {
        MatchMeaning(pat, path);
        NewlinesIrrelevant(ToSlash(pat), ToSlash(path));
      }
    }
  }

  lemma DoubleStarSlash(pat: string)
    ensures HasDoubleStar(ToSlash(pat)) <==> HasDoubleStar(pat)
  {
    var p := ToSlash(pat);
    forall i | 0 <= i < |pat| - 1 ensures p[i] == '*' && p[i + 1] == '*' <==> pat[i] == '*' && pat[i + 1] == '*' {
    }
  }
}
