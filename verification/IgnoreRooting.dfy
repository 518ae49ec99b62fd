/** Rooting a path changes no verdict of a plain relative line, and exactly when it would. */
module IgnoreRooting {
  import opened Text
  import opened Paths
  import opened Regex
  import opened Globs
  import opened GlobReading
  import opened GlobMeaning
  import opened IgnoreSpec
  import opened IgnoreFamily
  import opened IgnoreMeaning
  import opened CfIgnore

  /** Number of leading stars. */
  function LeadingStars(pat: string): (n: nat)
    ensures n <= |pat| && (n < |pat| ==> pat[n] != '*')
    ensures forall i :: 0 <= i < n ==> pat[i] == '*'
  {
    if StartsWith(pat, '*') then 1 + LeadingStars(pat[1..]) else 0
  }

  /** The first component consists of stars only and is not the last one. */
  predicate OpensWithStarDirectory(pat: string) {
    var n := LeadingStars(pat);
    0 < n < |pat| && pat[n] == '/'
  }

  // ---------- prepending a slash to the subject ----------

  /** `**` followed by anything may swallow more text in front, up to a newline. */
  lemma DoubleSwallows(pat: string, front: string, s: string)
    requires OpensDouble(pat) && '\n' !in front && Denotes(pat, s, false)
    ensures Denotes(pat, front + s, false)
  {
    var k :| 0 <= k <= |s| && '\n' !in s[..k] && Denotes(pat[2..], s[k..], false);
    var j := |front| + k;
    assert (front + s)[..j] == front + s[..k] && (front + s)[j..] == s[k..];
  }

  /** A leading `**` component may be empty: the subject then starts at a slash. */
  lemma DeepMatchesBelowRoot(pat: string, s: string)
    requires Denotes(pat, s, false)
    ensures Denotes("**/" + pat, "/" + s, false)
  {
    assert ("**/" + pat)[2..] == "/" + pat && ("/" + pat)[1..] == pat;
    assert ("/" + s)[1..] == s && ("/" + s)[0..] == "/" + s;
    assert Denotes("/" + pat, ("/" + s)[0..], false);
  }

  lemma DeepUnrooted(pat: string, s: string)
    requires Denotes("**/" + pat, "/" + s, false)
    ensures Denotes(pat, s, false) || Denotes("**/" + pat, s, false)
  {
    assert ("**/" + pat)[2..] == "/" + pat && ("/" + pat)[1..] == pat;
    var k :| 0 <= k <= |"/" + s| && '\n' !in ("/" + s)[..k] && Denotes("/" + pat, ("/" + s)[k..], false);
    if k == 0 {
      assert ("/" + s)[0..][1..] == s;
    } else {
      assert ("/" + s)[k..] == s[k - 1..];
      assert ("/" + s)[..k] == "/" + s[..k - 1];
    }
  }

  lemma SingleStarNeedsNoSlash(pat: string, s: string)
    ensures |pat| >= 2 && pat[0] == '*' && pat[1] != '*' && pat[1] != '/' ==> !Denotes(pat, "/" + s, false)
  {
    var t := "/" + s;
    forall k | 0 < k <= |t| ensures '/' in t[..k] {
      assert t[..k][0] == '/';
    }
    assert t[0..] == t;
    assert |pat| >= 2 ==> pat[1..][0] == pat[1];
  }

  /** A pattern whose stars are followed by a non-slash cannot use a leading slash. */
  lemma {:induction false} LeadingSlashUnused(pat: string, s: string)
    requires LeadingStars(pat) < |pat| && pat[LeadingStars(pat)] != '/'
    requires Denotes(pat, "/" + s, false)
    ensures Denotes(pat, s, false)
    decreases |pat|
  {
    var t := "/" + s;
    SingleStarNeedsNoSlash(pat, s);
    if OpensDouble(pat) {
      var k :| 0 <= k <= |t| && '\n' !in t[..k] && Denotes(pat[2..], t[k..], false);
      assert LeadingStars(pat) == 1 + LeadingStars(pat[1..]) && pat[1..][1..] == pat[2..];
      if k == 0 {
        assert t[0..] == t;
        LeadingSlashUnused(pat[2..], s);
        assert s[0..] == s;
      } else {
        assert t[k..] == s[k - 1..];
        assert t[..k] == "/" + s[..k - 1];
      }
    }
  }

  /** The three texts of a base with a `**` component in front. */
  lemma DeepBase(bare: string, head: string, s: string)
    ensures BaseDenotes("**/" + bare, "**/" + head, s) <==>
            Denotes("**/" + bare, s, false) || Denotes("**/" + (head + "*"), s, false)
            || Denotes("**/" + (head + "**/*"), s, false)
  {
    assert "**/" + head + "*" == "**/" + (head + "*");
    assert "**/" + head + "**/*" == "**/" + (head + "**/*");
  }

  /** Rooting keeps every match of a base and its deep base. */
  lemma RootingKeeps(bare: string, head: string, s: string)
    requires BaseDenotes(bare, head, s) || BaseDenotes("**/" + bare, "**/" + head, s)
    ensures BaseDenotes("**/" + bare, "**/" + head, "/" + s)
  {
    DeepBase(bare, head, s);
    DeepBase(bare, head, "/" + s);
    forall pat | pat in {bare, head + "*", head + "**/*"} && (Denotes(pat, s, false) || Denotes("**/" + pat, s, false))
      ensures Denotes("**/" + pat, "/" + s, false)
    {
      if Denotes(pat, s, false) {
        DeepMatchesBelowRoot(pat, s);
      } else {
        DoubleSwallows("**/" + pat, "/", s);
      }
    }
  }

  lemma StarsThenOther(pat: string, more: string)
    requires LeadingStars(pat) < |pat|
    ensures LeadingStars(pat + more) == LeadingStars(pat)
  {
    if StartsWith(pat, '*') {
      assert (pat + more)[1..] == pat[1..] + more;
      StarsThenOther(pat[1..], more);
    }
  }

  ghost predicate HereOrDeeper(pat: string, s: string) {
    Denotes(pat, s, false) || Denotes("**/" + pat, s, false)
  }

  lemma UnrootingKeepsText(pat: string, s: string)
    requires LeadingStars(pat) < |pat| && pat[LeadingStars(pat)] != '/'
    requires HereOrDeeper(pat, "/" + s)
    ensures HereOrDeeper(pat, s)
  {
    if Denotes(pat, "/" + s, false) {
      LeadingSlashUnused(pat, s);
    } else {
      DeepUnrooted(pat, s);
    }
  }

  lemma FamilyDenotes(bare: string, head: string, s: string)
    ensures BaseDenotes(bare, head, s) || BaseDenotes("**/" + bare, "**/" + head, s) <==>
            HereOrDeeper(bare, s) || HereOrDeeper(head + "*", s) || HereOrDeeper(head + "**/*", s)
  {
    DeepBase(bare, head, s);
  }

  /** Unrooting loses no match when the stars of the bare text are followed by a non-slash. */
  lemma UnrootingKeeps(bare: string, head: string, s: string)
    requires head == bare + "/"
    requires LeadingStars(bare) < |bare| && bare[LeadingStars(bare)] != '/'
    requires BaseDenotes(bare, head, "/" + s) || BaseDenotes("**/" + bare, "**/" + head, "/" + s)
    ensures BaseDenotes(bare, head, s) || BaseDenotes("**/" + bare, "**/" + head, s)
  {
    FamilyDenotes(bare, head, s);
    FamilyDenotes(bare, head, "/" + s);
    StarsThenOther(bare, "/" + "*");
    StarsThenOther(bare, "/" + "**/*");
    var child, deep := head + "*", head + "**/*";
    assert child == bare + ("/" + "*") && deep == bare + ("/" + "**/*");
    if HereOrDeeper(bare, "/" + s) {
      UnrootingKeepsText(bare, s);
    } else if HereOrDeeper(child, "/" + s) {
      UnrootingKeepsText(child, s);
    } else {
      UnrootingKeepsText(deep, s);
    }
  }

  // ---------- the family of a relative line ----------

  /** What a relative line with the given slash-normalised pattern matches. */
  ghost predicate FamilyMatches(bare: string, s: string) {
    if bare == "." then BaseDenotes(".", "", s) || BaseDenotes("**", "**/", s)
    else BaseDenotes(bare, bare + "/", s) || BaseDenotes("**/" + bare, "**/" + (bare + "/"), s)
  }

  /** The pattern does not begin with a `..` component. */
  predicate StaysInside(pattern: string) {
    pattern != ".." && !HasPrefix(pattern, "../")
  }

  lemma DotUnslashed(pattern: string)
    ensures ToSlash(pattern) == "." ==> pattern == "."
  {
    if ToSlash(pattern) == "." {
      assert pattern[0] == ToSlash(pattern)[0];
    }
  }

  lemma StaysInsideComponents(components: seq<string>)
    requires Normal(false, components) && StaysInside(Render(false, components))
    ensures components == [] || components[0] != ".."
    ensures ToSlash(Render(false, components)) == "." ==> components == []
  {
    if components != [] {
      var p := Render(false, components);
      if |components| > 1 {
        assert p == components[0] + "/" + Join(components[1..], '/');
      }
      DotUnslashed(p);
    }
  }

  lemma RelativeLineMatches(line: Line, path: string)
    requires Plain(line) && !IsRooted(line.pattern) && StaysInside(line.pattern)
    ensures LineMatches(line, path) <==> FamilyMatches(ToSlash(line.pattern), ToSlash(path))
  {
    var rooted, components := LineDenotes(line, path);
    StaysInsideComponents(components);
    HeadShape(false, components);
    DeepText(components);
    SlashFree("**");
    SlashFree("**/");
    ToSlashConcat("**/", Render(false, components));
    ToSlashConcat("**/", Head(false, components));
    assert "**/" + "" == "**/";
  }

  lemma ToSlashRoot(path: string)
    ensures ToSlash("/" + path) == "/" + ToSlash(path)
  {
  }

  /** Stars followed by a non-slash: rooting changes nothing, on any path at all. */
  lemma RootingHolds(line: Line, path: string)
    requires Plain(line) && !IsRooted(line.pattern) && StaysInside(line.pattern) && line.pattern != "."
    requires var bare := ToSlash(line.pattern); LeadingStars(bare) < |bare| && bare[LeadingStars(bare)] != '/'
    ensures LineMatches(line, path) <==> LineMatches(line, "/" + path)
  {
    var bare, s := ToSlash(line.pattern), ToSlash(path);
    RelativeLineMatches(line, path);
    RelativeLineMatches(line, "/" + path);
    ToSlashRoot(path);
    DotUnslashed(line.pattern);
    if FamilyMatches(bare, s) {
      RootingKeeps(bare, bare + "/", s);
    }
    if FamilyMatches(bare, "/" + s) {
      UnrootingKeeps(bare, bare + "/", s);
    }
  }

  // ---------- patterns that match everything ----------

  lemma {:induction false} StarsMatchNothing(pat: string)
    requires forall c :: c in pat ==> c == '*'
    ensures Denotes(pat, "", false)
    decreases |pat|
  {
    if pat != "" {
      var n := if OpensDouble(pat) then 2 else 1;
      assert pat[0] in pat;
      assert forall c :: c in pat[n..] ==> c in pat;
      StarsMatchNothing(pat[n..]);
      assert ""[0..] == "";
    }
  }

  lemma StarPatternMatchesAll(bare: string, s: string)
    requires bare == "." || (bare != "" && LeadingStars(bare) == |bare|)
    requires '\n' !in s
    ensures FamilyMatches(bare, s)
  {
    assert s[..|s|] == s && s[|s|..] == "";
    if bare == "." {
      StarsMatchNothing("");
      assert "**"[2..] == "" && Denotes("", s[|s|..], false);
    } else if bare == "*" {
      StarDenotes(s);
      DeepTailDenotes(s);
      assert "**/" + "*" == "**/*";
    } else {
      assert bare[0] == '*' && bare[1] == '*';
      StarsMatchNothing(bare[2..]);
      assert Denotes(bare[2..], s[|s|..], false);
    }
  }

  // ---------- a leading directory of stars ----------

  function Slashes(s: string): nat {
    if s == "" then 0 else (if s[0] == '/' then 1 else 0) + Slashes(s[1..])
  }

  lemma {:induction false} SlashesConcat(u: string, v: string)
    ensures Slashes(u + v) == Slashes(u) + Slashes(v)
  {
    if u == "" {
      assert u + v == v;
    } else {
      assert (u + v)[1..] == u[1..] + v;
      SlashesConcat(u[1..], v);
    }
  }

  lemma SlashesAfterStar(pat: string)
    requires StartsWith(pat, '*')
    ensures Slashes(pat) == Slashes(pat[1..])
    ensures OpensDouble(pat) ==> Slashes(pat) == Slashes(pat[2..])
  {
    if OpensDouble(pat) {
      assert pat[1..][1..] == pat[2..];
    }
  }

  lemma SlashesOfFirst(pat: string, s: string, m: nat)
    requires pat != "" && m <= |s| && TokenTakes(pat, s[..m], false)
    ensures Slashes(pat) <= Slashes(s[..m]) + Slashes(pat[StarsWidth(pat)..])
  {
    if pat[0] == '*' {
      SlashesAfterStar(pat);
    } else {
      assert s[..m] == [s[0]] && [s[0]][1..] == "";
    }
  }

  /** Slashes of a pattern are literal: the subject has at least as many. */
  lemma {:induction false} SlashesNeeded(pat: string, s: string)
    requires Denotes(pat, s, false)
    ensures Slashes(s) >= Slashes(pat)
    decreases |pat|
  {
    if pat != "" {
      var m := FirstTokenSplit(pat, s, false);
      SlashesNeeded(pat[StarsWidth(pat)..], s[m..]);
      SlashesConcat(s[..m], s[m..]);
      assert s[..m] + s[m..] == s;
      SlashesOfFirst(pat, s, m);
    }
  }

  lemma {:induction false} ShortestSlashes(pat: string)
    ensures Slashes(Shortest(pat)) == Slashes(pat)
    decreases |pat|
  {
    if pat != "" {
      var n := if OpensDouble(pat) then 2 else 1;
      ShortestSlashes(pat[n..]);
      if pat[0] == '*' {
        SlashesAfterStar(pat);
      } else {
        assert Shortest(pat)[1..] == Shortest(pat[1..]);
      }
    }
  }

  /** Too few slashes in the subject: no glob of the family can match. */
  lemma TooFewSlashes(bare: string, s: string)
    requires Slashes(s) < Slashes(bare) && bare != "."
    ensures !FamilyMatches(bare, s)
  {
    var head := bare + "/";
    FamilyDenotes(bare, head, s);
    SlashesConcat(bare, "/");
    SlashesConcat(head, "*");
    SlashesConcat(head, "**/*");
    forall pat | Slashes(pat) >= Slashes(bare) ensures !HereOrDeeper(pat, s) {
      SlashesConcat("**/", pat);
      if Denotes(pat, s, false) {
        SlashesNeeded(pat, s);
      } else if Denotes("**/" + pat, s, false) {
        SlashesNeeded("**/" + pat, s);
      }
    }
  }

  /** A glob that opens with a directory of stars takes a path as rooted that has too few slashes otherwise. */
  lemma StarDirectoryWitness(bare: string) returns (s: string)
    requires OpensWithStarDirectory(bare)
    ensures Denotes(bare, "/" + s, false) && Slashes(s) < Slashes(bare)
    ensures forall c :: c in s ==> c in bare || c == 'x'
  {
    var n := LeadingStars(bare);
    var stars, rest := bare[..n], bare[n + 1..];
    s := Shortest(rest);
    assert stars + ("/" + rest) == bare;
    StarsMatchNothing(stars);
    assert ("/" + rest)[1..] == rest && ("/" + s)[1..] == s;
    DenotesJoin(stars, "/" + rest, "", "/" + s, false);
    assert "" + ("/" + s) == "/" + s;
    ShortestSlashes(rest);
    SlashesConcat(stars, "/" + rest);
    assert Slashes("/" + rest) == 1 + Slashes(rest);
  }

  /** A pattern opening with a directory of stars matches some path only once it is rooted. */
  lemma StarDirectorySensitive(bare: string) returns (s: string)
    requires OpensWithStarDirectory(bare)
    ensures FamilyMatches(bare, "/" + s) && !FamilyMatches(bare, s)
    ensures forall c :: c in s ==> c in bare || c == 'x'
  {
    s := StarDirectoryWitness(bare);
    TooFewSlashes(bare, s);
  }

  lemma InsideExactly(line: Line)
    requires Plain(line) && !IsRooted(line.pattern) && StaysInside(line.pattern) && '\n' !in line.pattern
    ensures (forall path :: '\n' !in path ==> (LineMatches(line, path) <==> LineMatches(line, "/" + path)))
            <==> !OpensWithStarDirectory(ToSlash(line.pattern))
  {
    var bare := ToSlash(line.pattern);
    SlashedHasNoBackslash(line.pattern);
    if OpensWithStarDirectory(bare) {
      var s := StarDirectorySensitive(bare);
      SlashFree(s);
      RelativeLineMatches(line, s);
      RelativeLineMatches(line, "/" + s);
      ToSlashRoot(s);
    } else {
      forall path | '\n' !in path ensures LineMatches(line, path) <==> LineMatches(line, "/" + path) {
        var n := LeadingStars(bare);
        if line.pattern != "." && n < |bare| {
          RelativeBareHead(line.pattern);
          RootingHolds(line, path);
        } else {
          SlashedHasNoBackslash(path);
          SlashedHasNoBackslash("/" + path);
          RelativeLineMatches(line, path);
          RelativeLineMatches(line, "/" + path);
          RelativeBareHead(line.pattern);
          StarPatternMatchesAll(bare, ToSlash(path));
          StarPatternMatchesAll(bare, ToSlash("/" + path));
        }
      }
    }
  }

  lemma RelativeBareHead(pattern: string)
    requires Clean(pattern) == pattern && SlashSafe(pattern) && !IsRooted(pattern)
    ensures ToSlash(pattern) != "" && ToSlash(pattern)[0] != '/'
  {
    var rooted, components := CleanShape(pattern);
    RenderHead(rooted, components);
  }

  // ---------- patterns that open with a dot-dot component ----------

  lemma DotDotComponents(components: seq<string>)
    requires Normal(false, components) && !StaysInside(Render(false, components))
    ensures components != [] && components[0] == ".."
    ensures components[1..] != [] ==>
              Render(false, components) == "../" + Render(false, components[1..])
    ensures components[1..] == [] <==> Render(false, components) == ".."
  {
    var p := Render(false, components);
    assert components != [];
    var first := components[0];
    if |components| == 1 {
      assert p == first && '/' !in first && "../"[2] == '/';
    } else {
      assert p == first + "/" + Join(components[1..], '/');
      assert p[|first|] == '/';
      assert forall i :: 0 <= i < |first| ==> p[i] == first[i] != '/';
      assert p != "..";
      assert p[..3] == "../" && p[0] == '.' && p[1] == '.' && p[2] == '/';
      assert |first| == 2 && first == p[..2];
    }
  }

  /** What a pattern `../q` with the given slash-normalised q matches: there, or from here on; the `**` is gone. */
  ghost predicate UpMatches(q: string, s: string) {
    BaseDenotes("../" + q, "../" + q + "/", s) || BaseDenotes(q, q + "/", s)
  }

  /** The texts of a pattern `../r`, and of its deep family, which is r alone. */
  lemma UpTextsOf(components: seq<string>, r: string)
    requires Normal(false, components) && Render(false, components) == "../" + r
    ensures components != [] && components[0] == ".." && components[1..] != [] && r == Render(false, components[1..])
    ensures BareText(false, components) == "../" + ToSlash(r)
            && HeadSlash(false, components) == "../" + ToSlash(r) + "/"
    ensures BareText(false, DeepComponents(components)) == ToSlash(r)
    ensures HeadSlash(false, DeepComponents(components)) == ToSlash(r) + "/"
  {
    DotDotComponents(components);
    DeepIsNormal(components);
    assert ("../" + r)[3..] == r && ("../" + Render(false, components[1..]))[3..] == Render(false, components[1..]);
    HeadShape(false, components);
    HeadShape(false, components[1..]);
    ToSlashConcat("../", r);
    SlashFree("../");
  }

  lemma UpHead(components: seq<string>, r: string)
    requires Normal(false, components) && Safe(Render(false, components))
    requires components != [] && components[0] == ".." && r == Render(false, components[1..])
    ensures ToSlash(r) != "" && ToSlash(r)[0] != '/'
  {
    DeepIsNormal(components);
    DeepHead(components);
    RenderHead(false, components[1..]);
  }

  lemma UpLineDenotes(line: Line, path: string) returns (components: seq<string>)
    requires Plain(line) && HasPrefix(line.pattern, "../")
    ensures Normal(false, components) && line.pattern == Render(false, components)
    ensures LineMatches(line, path) <==>
            BaseDenotes(BareText(false, components), HeadSlash(false, components), ToSlash(path))
            || BaseDenotes(BareText(false, DeepComponents(components)),
                           HeadSlash(false, DeepComponents(components)), ToSlash(path))
  {
    var rooted;
    rooted, components := LineDenotes(line, path);
  }

  lemma UpLineMatches(line: Line, path: string)
    requires Plain(line) && HasPrefix(line.pattern, "../")
    ensures LineMatches(line, path) <==> UpMatches(ToSlash(line.pattern[3..]), ToSlash(path))
    ensures var q := ToSlash(line.pattern[3..]); q != "" && q[0] != '/'
  {
    var components := UpLineDenotes(line, path);
    var r := line.pattern[3..];
    assert line.pattern == "../" + r;
    UpTextsOf(components, r);
    assert ToSlash(r) != "" && ToSlash(r)[0] != '/' by {
      UpHead(components, r);
    }
  }

  /** No glob that opens with at most one star, and then not with a slash, takes a leading slash. */
  lemma NoLeadingSlash(pat: string, s: string)
    requires LeadingStars(pat) <= 1 && LeadingStars(pat) < |pat| && pat[LeadingStars(pat)] != '/'
    ensures !Denotes(pat, "/" + s, false)
  {
    SingleStarNeedsNoSlash(pat, s);
    if StartsWith(pat, '*') {
      assert LeadingStars(pat) == 1 + LeadingStars(pat[1..]);
    }
  }

  lemma NoLeadingSlashBase(bare: string, s: string)
    requires LeadingStars(bare) <= 1 && LeadingStars(bare) < |bare| && bare[LeadingStars(bare)] != '/'
    ensures !BaseDenotes(bare, bare + "/", "/" + s)
  {
    StarsThenOther(bare, "/*");
    StarsThenOther(bare, "/**/*");
    assert bare + "/" + "*" == bare + "/*" && bare + "/" + "**/*" == bare + "/**/*";
    NoLeadingSlash(bare, s);
    NoLeadingSlash(bare + "/*", s);
    NoLeadingSlash(bare + "/**/*", s);
  }

  lemma UpRooted(q: string, s: string)
    ensures UpMatches(q, "/" + s) <==> BaseDenotes(q, q + "/", "/" + s)
  {
    NoLeadingSlashBase("../" + q, s);
  }

  lemma BaseTooFewSlashes(bare: string, s: string)
    requires Slashes(s) < Slashes(bare)
    ensures !BaseDenotes(bare, bare + "/", s)
  {
    SlashesConcat(bare, "/");
    SlashesConcat(bare + "/", "*");
    SlashesConcat(bare + "/", "**/*");
    if Denotes(bare, s, false) {
      SlashesNeeded(bare, s);
    } else if Denotes(bare + "/" + "*", s, false) {
      SlashesNeeded(bare + "/" + "*", s);
    } else if Denotes(bare + "/" + "**/*", s, false) {
      SlashesNeeded(bare + "/" + "**/*", s);
    }
  }

  /** A path on which rooting changes the verdict of `../q`. */
  lemma UpSensitive(q: string) returns (s: string)
    requires q != "" && q[0] != '/' && !UpNeutral(q)
    ensures !(UpMatches(q, s) <==> UpMatches(q, "/" + s))
    ensures forall c :: c in s ==> c in q || c == 'x'
  {
    if OpensWithStarDirectory(q) {
      s := StarDirectoryWitness(q);
      SlashesConcat("../", q);
      BaseTooFewSlashes(q, s);
      BaseTooFewSlashes("../" + q, s);
    } else {
      s := Shortest(q);
      NoLeadingSlashBase(q, s);
      UpRooted(q, s);
    }
  }

  lemma LiteralThen(c: char, rest: string, s: string)
    requires c != '*' && c != '?' && Denotes([c] + rest, s, false)
    ensures s != "" && s == [c] + s[1..] && Denotes(rest, s[1..], false)
  {
    assert ([c] + rest)[1..] == rest;
  }

  lemma BehindDotDot(t: string, s: string) returns (below: string)
    requires Denotes("../" + t, s, false)
    ensures s == "../" + below && Denotes(t, below, false)
  {
    assert "../" + t == ['.'] + ("./" + t) && "./" + t == ['.'] + ("/" + t) && "/" + t == ['/'] + t;
    LiteralThen('.', "./" + t, s);
    LiteralThen('.', "/" + t, s[1..]);
    LiteralThen('/', t, s[1..][1..]);
    below := s[1..][1..][1..];
  }

  ghost predicate HereOrUp(t: string, s: string) {
    Denotes(t, s, false) || Denotes("../" + t, s, false)
  }

  lemma BaseTexts(bare: string, child: string, deep: string, s: string)
    requires child == bare + "/*" && deep == bare + "/**/*"
    ensures BaseDenotes(bare, bare + "/", s)
            <==> Denotes(bare, s, false) || Denotes(child, s, false) || Denotes(deep, s, false)
  {
    assert bare + "/" + "*" == child && bare + "/" + "**/*" == deep;
  }

  lemma UpTexts(q: string, child: string, deep: string, s: string)
    requires child == q + "/*" && deep == q + "/**/*"
    ensures UpMatches(q, s) <==> HereOrUp(q, s) || HereOrUp(child, s) || HereOrUp(deep, s)
  {
    BaseTexts(q, child, deep, s);
    BaseTexts("../" + q, "../" + child, "../" + deep, s);
  }

  lemma UpRootingKeeps(t: string, s: string)
    requires OpensDouble(t) && HereOrUp(t, s)
    ensures Denotes(t, "/" + s, false)
  {
    if Denotes(t, s, false) {
      DoubleSwallows(t, "/", s);
    } else {
      var below := BehindDotDot(t, s);
      DoubleSwallows(t, "/../", below);
      assert "/../" + below == "/" + s;
    }
  }

  lemma UpTextKeeps(t: string, s: string)
    requires LeadingStars(t) >= 2 && LeadingStars(t) < |t| && t[LeadingStars(t)] != '/'
    ensures HereOrUp(t, s) <==> Denotes(t, "/" + s, false)
  {
    assert OpensDouble(t);
    if HereOrUp(t, s) {
      UpRootingKeeps(t, s);
    }
    if Denotes(t, "/" + s, false) {
      LeadingSlashUnused(t, s);
    }
  }

  /** Two stars and then no slash: `../q` matches a path as it matches the rooted one. */
  lemma UpKeeps(q: string, s: string)
    requires LeadingStars(q) >= 2 && LeadingStars(q) < |q| && q[LeadingStars(q)] != '/'
    ensures UpMatches(q, s) <==> UpMatches(q, "/" + s)
  {
    var child, deep := q + "/*", q + "/**/*";
    StarsThenOther(q, "/*");
    StarsThenOther(q, "/**/*");
    UpTexts(q, child, deep, s);
    UpRooted(q, s);
    BaseTexts(q, child, deep, "/" + s);
    UpTextKeeps(q, s);
    UpTextKeeps(child, s);
    UpTextKeeps(deep, s);
  }

  lemma AnyBelowStar(s: string)
    requires '\n' !in s
    ensures BaseDenotes("*", "*/", s)
  {
    StarDenotes(s);
    if '/' in s {
      var k := SegmentEnd(s, 0);
      assert s[0..k] == s[..k];
      assert s == s[..k] + "/" + s[k + 1..];
      var below := s[k + 1..];
      StarDenotes(s[..k]);
      StarDenotes(below);
      DeepTailDenotes(below);
      assert '/' !in below || EndsDeep(below);
      SlashIsItself();
      DenotesJoin("*", "/", s[..k], "/", false);
      if '/' !in below {
        DenotesJoin("*/", "*", s[..k] + "/", below, false);
      } else {
        DenotesJoin("*/", "**/*", s[..k] + "/", below, false);
      }
    }
  }

  lemma SlashIsItself()
    ensures Denotes("/", "/", false)
  {
    assert "/"[1..] == "";
  }

  /** A base of stars only denotes every newline-free path. */
  lemma StarsMatchAll(q: string, s: string)
    requires q != "" && LeadingStars(q) == |q| && '\n' !in s
    ensures BaseDenotes(q, q + "/", s)
  {
    if |q| == 1 {
      assert q == "*" && q + "/" == "*/";
      AnyBelowStar(s);
    } else {
      assert q[0] == '*' && q[1] == '*';
      StarsMatchNothing(q[2..]);
      assert s[..|s|] == s && s[|s|..] == "";
      assert Denotes(q[2..], s[|s|..], false);
    }
  }

  /** q consists of stars, or opens with two or more of them and then not with a slash. */
  predicate UpNeutral(q: string) {
    var n := LeadingStars(q);
    n == |q| || (n >= 2 && q[n] != '/')
  }

  lemma DotDotMatchesAll(line: Line, path: string)
    requires Plain(line) && line.pattern == ".." && '\n' !in path
    ensures LineMatches(line, path)
  {
    var rooted, components := LineDenotes(line, path);
    DotDotComponents(components);
    HeadShape(false, []);
    SlashedHasNoBackslash(path);
    var s := ToSlash(path);
    StarDenotes(s);
    DeepTailDenotes(s);
    assert "" + "*" == "*" && "" + "**/*" == "**/*";
  }

  lemma UpExactly(line: Line)
    requires Plain(line) && HasPrefix(line.pattern, "../") && '\n' !in line.pattern
    ensures (forall path :: '\n' !in path ==> (LineMatches(line, path) <==> LineMatches(line, "/" + path)))
            <==> UpNeutral(ToSlash(line.pattern[3..]))
  {
    var r := line.pattern[3..];
    var q := ToSlash(r);
    SlashedHasNoBackslash(r);
    if UpNeutral(q) {
      forall path | '\n' !in path ensures LineMatches(line, path) <==> LineMatches(line, "/" + path) {
        UpUnchanged(line, path);
      }
    } else {
      UpLineMatches(line, "");
      var s := UpSensitive(q);
      assert forall c :: c in r ==> c in line.pattern;
      SlashFree(s);
      ToSlashRoot(s);
      UpLineMatches(line, s);
      UpLineMatches(line, "/" + s);
    }
  }

  lemma UpUnchanged(line: Line, path: string)
    requires Plain(line) && HasPrefix(line.pattern, "../") && UpNeutral(ToSlash(line.pattern[3..])) && '\n' !in path
    ensures LineMatches(line, path) <==> LineMatches(line, "/" + path)
  {
    var q, s := ToSlash(line.pattern[3..]), ToSlash(path);
    UpLineMatches(line, path);
    UpLineMatches(line, "/" + path);
    ToSlashRoot(path);
    SlashedHasNoBackslash(path);
    if LeadingStars(q) == |q| {
      StarsMatchAll(q, s);
      StarsMatchAll(q, "/" + s);
    } else {
      UpKeeps(q, s);
    }
  }

  // ---------- when rooting changes nothing ----------

  /**
   Inside the tree, the pattern does not open with a directory of stars. Outside it, the pattern is
   `..`, or what follows `../` is all stars or opens with several stars and then not with a slash.
   */
  predicate RootingNeutral(pattern: string) {
    if StaysInside(pattern) then !OpensWithStarDirectory(ToSlash(pattern))
    else pattern == ".." || UpNeutral(ToSlash(pattern[3..]))
  }

  /**
   On newline-free paths rooting never changes the verdict of a relative line if and only if its pattern is
   neutral.
   */
  lemma RootingExactly(line: Line)
    requires Plain(line) && !IsRooted(line.pattern) && '\n' !in line.pattern
    ensures (forall path :: '\n' !in path ==> (LineMatches(line, path) <==> LineMatches(line, "/" + path)))
            <==> RootingNeutral(line.pattern)
  {
    if StaysInside(line.pattern) {
      InsideExactly(line);
    } else if line.pattern == ".." {
      forall path | '\n' !in path ensures LineMatches(line, path) && LineMatches(line, "/" + path) {
        DotDotMatchesAll(line, path);
        DotDotMatchesAll(line, "/" + path);
      }
    } else {
      UpExactly(line);
    }
  }

  // ---------- every reachable object ----------

  /** A line that names a plain file, and so may be rooted without consequence. */
  ghost predicate NamesFile(line: Line) {
    && Plain(line) && !IsRooted(line.pattern) && StaysInside(line.pattern) && line.pattern != "."
    && var bare := ToSlash(line.pattern); LeadingStars(bare) < |bare| && bare[LeadingStars(bare)] != '/'
  }

  predicate PlainName(name: string) {
    && NormalComponent(name) && name != ".." && '\\' !in name && '|' !in name && '{' !in name && name[0] != '*'
    && !IsSpace(name[0]) && !IsSpace(name[|name| - 1]) && name[0] != '!'
  }

  lemma ParseOne(raw: string)
    requires raw != "" && !IsSpace(raw[0]) && !IsSpace(raw[|raw| - 1]) && raw[0] != '!'
    ensures ParseLines([raw]) == [Line(true, Clean(raw))]
  {
    assert TrimSpace(raw) == raw;
    assert [raw][..0] == [];
    assert [] + ParseLine(raw) == ParseLine(raw);
  }

  lemma ParseName(name: string) returns (line: Line)
    requires PlainName(name)
    ensures ParseLines([name]) == [line] && line.exclude && NamesFile(line)
  {
    line := Line(true, name);
    RenderReduces(false, [name]);
    assert Join([name], '/') == name;
    RenderAccepted(false, [name]);
    SlashFree(name);
    ParseOne(name);
    assert |name| > 2 ==> name[2] != '/';
  }

  lemma ParseRootedName(name: string) returns (line: Line)
    requires PlainName(name)
    ensures ParseLines(["/" + name]) == [line] && IsRooted(line.pattern)
  {
    RenderReduces(true, [name]);
    assert Join([name], '/') == name;
    ParseOne("/" + name);
    line := Line(true, "/" + name);
  }

  lemma FirstTwoLines(raws: seq<string>, a: string, b: string) returns (first: Line, second: Line)
    requires |raws| > 1 && raws[0] == a && raws[1] == "/" + b && PlainName(a) && PlainName(b)
    ensures [first, second] <= ParseLines(raws)
    ensures NamesFile(first) && IsRooted(second.pattern)
  {
    first := ParseName(a);
    second := ParseRootedName(b);
    ParseLinesConcat([a], ["/" + b]);
    ParseLinesConcat([a] + ["/" + b], raws[2..]);
    assert [a] + ["/" + b] + raws[2..] == raws;
  }

  /** The first default line names a plain file, the second one is rooted. */
  lemma FirstDefaultLines() returns (first: Line, second: Line)
    ensures [first, second] <= ParseLines(DEFAULT_IGNORE_LINES)
    ensures NamesFile(first) && IsRooted(second.pattern)
  {
    first, second := FirstTwoLines(DEFAULT_IGNORE_LINES, ".cfignore", "manifest.yml");
  }

  lemma {:induction false} LeadingSlashPrefix(lines: seq<Line>, path: string)
    requires lines != [] && NamesFile(lines[0]) && !IsRooted(path)
    requires |lines| > 1 ==> IsRooted(lines[1].pattern)
    ensures LineVerdict(lines, path) == LineVerdict(lines, "/" + path)
  {
    var front, last := lines[..|lines| - 1], lines[|lines| - 1];
    if front == [] {
      RootingHolds(lines[0], path);
    } else {
      assert lines[1] in lines && IsRooted(lines[1].pattern);
      assert PathSeen(lines, path) == PathSeen(lines, "/" + path);
      LeadingSlashPrefix(front, path);
    }
  }

  /** After New and any Parse calls, a leading slash on the path makes no difference. */
  lemma LeadingSlashInsensitive(lines: seq<Line>, path: string)
    requires ParseLines(DEFAULT_IGNORE_LINES) <= lines && !IsRooted(path)
    ensures LineVerdict(lines, path) == LineVerdict(lines, "/" + path)
  {
    var first, second := FirstDefaultLines();
    assert [first, second] <= lines;
    assert [first, second][0] == lines[0] && [first, second][1] == lines[1];
    LeadingSlashPrefix(lines, path);
  }
}
