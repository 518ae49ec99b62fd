/** Exactly when the ignored set of a reachable object is closed downwards in the tree. */
module IgnoreReachable {
  import opened Text
  import opened Paths
  import opened Regex
  import opened Globs
  import opened GlobReading
  import opened GlobMeaning
  import opened IgnoreSpec
  import opened IgnoreFamily
  import opened IgnoreMeaning
  import opened IgnoreRooting
  import opened IgnoreClosure
  import opened CfIgnore

  // ---------- lines of stars ----------

  lemma RenderInjective(rooted: bool, a: seq<string>, b: seq<string>)
    requires Normal(rooted, a) && Normal(rooted, b) && Render(rooted, a) == Render(rooted, b)
    ensures a == b
  {
    RenderReduces(rooted, a);
    RenderReduces(rooted, b);
  }

  /** What a line matches, with its shape as an argument. */
  lemma LineDenotesAs(line: Line, path: string, rooted: bool, components: seq<string>)
    requires Plain(line) && Normal(rooted, components) && line.pattern == Render(rooted, components)
    requires rooted == IsRooted(line.pattern)
    ensures LineMatches(line, path) <==>
            BaseDenotes(BareText(rooted, components), HeadSlash(rooted, components), ToSlash(path))
            || (!rooted && BaseDenotes(BareText(false, DeepComponents(components)),
                                       HeadSlash(false, DeepComponents(components)), ToSlash(path)))
  {
    var rooted', components' := LineDenotes(line, path);
    RenderInjective(rooted, components, components');
  }

  /** The text "/" followed by m star directories: "/", "/[star]/", ... */
  function StarHead(m: nat): (s: string)
    ensures s != "" && s[0] == '/' && s[|s| - 1] == '/'
  {
    if m == 0 then "/" else "/*" + StarHead(m - 1)
  }

  /** It denotes exactly the texts that begin and end in a slash and have one more slash than stars. */
  lemma {:induction false} StarHeadDenotes(m: nat, s: string)
    ensures Denotes(StarHead(m), s, false)
            <==> s != "" && s[0] == '/' && s[|s| - 1] == '/' && Slashes(s) == m + 1
    decreases m, 0
  {
    var pat := StarHead(m);
    if m == 0 {
      assert pat[1..] == "";
      if s != "" {
        NoSlashes(s[1..]);
        assert |s| > 1 ==> s[1..][|s| - 2] == s[|s| - 1];
      }
    } else {
      var rest := StarHead(m - 1);
      assert pat[1..] == "*" + rest && ("*" + rest)[1..] == rest;
      if s != "" && s[0] == '/' {
        StarThenHead(m - 1, s[1..]);
      }
    }
  }

  lemma {:induction false} NoSlashes(s: string)
    ensures Slashes(s) == 0 <==> '/' !in s
  {
    if s != "" {
      NoSlashes(s[1..]);
    }
  }

  lemma {:induction false} StarThenHead(m: nat, s: string)
    ensures Denotes("*" + StarHead(m), s, false) <==> s != "" && s[|s| - 1] == '/' && Slashes(s) == m + 1
    decreases m, 1
  {
    var rest := StarHead(m);
    assert ("*" + rest)[1..] == rest;
    forall k | 0 <= k <= |s| && '/' !in s[..k]
      ensures Denotes(rest, s[k..], false)
              <==> k < |s| && s[k] == '/' && s[|s| - 1] == '/' && Slashes(s) == m + 1
    {
      StarHeadDenotes(m, s[k..]);
      SlashesConcat(s[..k], s[k..]);
      NoSlashes(s[..k]);
      assert s[..k] + s[k..] == s;
    }
    if s != "" && s[|s| - 1] == '/' && Slashes(s) == m + 1 {
      var k := SegmentEnd(s, 0);
      assert s[0..k] == s[..k];
      assert s[|s| - 1] in s[0..|s|];
      assert Denotes(rest, s[k..], false);
    }
  }

  lemma {:induction false} StarHeadSnoc(m: nat)
    requires m > 0
    ensures StarHead(m) == StarHead(m - 1) + "*/"
  {
    if m == 1 {
      assert StarHead(0) == "/" && "/*" + "/" == "/" + "*/";
    } else {
      StarHeadSnoc(m - 1);
      assert "/*" + (StarHead(m - 2) + "*/") == "/*" + StarHead(m - 2) + "*/";
    }
  }

  lemma {:induction false} StarHeadRender(m: nat)
    requires m > 0
    ensures StarHead(m) == "/" + Join(Repeat("*", m), '/') + "/"
  {
    var stars := Repeat("*", m);
    assert stars[1..] == Repeat("*", m - 1);
    if m == 1 {
      assert Join(stars, '/') == "*" && StarHead(0) == "/";
    } else {
      StarHeadRender(m - 1);
      var rest := Join(Repeat("*", m - 1), '/');
      assert Join(stars, '/') == "*" + "/" + rest;
      assert "/*" + ("/" + rest + "/") == "/" + ("*" + "/" + rest) + "/";
    }
  }

  lemma {:induction false} StarHeadChars(m: nat)
    ensures forall c :: c in StarHead(m) ==> c == '/' || c == '*'
  {
    if m > 0 {
      StarHeadChars(m - 1);
    }
  }

  /** The rooted line made of m star components. */
  function StarLine(m: nat): Line {
    Line(true, Render(true, Repeat("*", m)))
  }

  lemma RepeatAll<T>(x: T, n: nat)
    ensures forall i :: 0 <= i < n ==> Repeat(x, n)[i] == x
  {
  }

  lemma StarLineText(m: nat)
    ensures StarLine(m).pattern == if m == 0 then "/" else StarHead(m - 1) + "*"
    ensures Head(true, Repeat("*", m)) == StarHead(m)
    ensures forall c :: c in StarLine(m).pattern ==> c == '/' || c == '*'
  {
    var p := StarLine(m).pattern;
    if m > 0 {
      StarHeadRender(m);
      StarHeadSnoc(m);
      StarHeadChars(m - 1);
      assert p + "/" == StarHead(m - 1) + "*" + "/";
      assert p == (p + "/")[..|p|];
    }
  }

  lemma RenderedIsPlain(rooted: bool, components: seq<string>)
    requires Normal(rooted, components)
    requires forall c :: c in Render(rooted, components) ==> c == '/' || c == '*'
    ensures Plain(Line(true, Render(rooted, components)))
  {
    RenderReduces(rooted, components);
    RenderAccepted(rooted, components);
    var p := Render(rooted, components);
    SlashFree(p);
    forall i | 0 <= i < |p| - 1 ensures p[i] != '{' {
      assert p[i] in p;
    }
  }

  lemma StarLineIsPlain(m: nat)
    ensures Plain(StarLine(m)) && Normal(true, Repeat("*", m)) && IsRooted(StarLine(m).pattern)
  {
    RepeatAll("*", m);
    StarLineText(m);
    RenderedIsPlain(true, Repeat("*", m));
  }

  lemma StarLineSlashed(m: nat)
    ensures BareText(true, Repeat("*", m)) == StarLine(m).pattern
    ensures HeadSlash(true, Repeat("*", m)) == StarHead(m)
  {
    StarLineText(m);
    StarHeadChars(m);
    SlashFree(StarLine(m).pattern);
    SlashFree(StarHead(m));
  }

  lemma StarLineMatches(m: nat, path: string)
    ensures LineMatches(StarLine(m), path) <==> BaseDenotes(StarLine(m).pattern, StarHead(m), ToSlash(path))
  {
    StarLineIsPlain(m);
    StarLineSlashed(m);
    LineDenotesAs(StarLine(m), path, true, Repeat("*", m));
  }

  function RootedPath(path: string): string {
    if IsRooted(path) then path else "/" + path
  }

  /** A star line at the end of a list sees the rooted path and has the last word. */
  lemma StarLineLast(lines: seq<Line>, m: nat, path: string)
    ensures LineVerdict(lines + [StarLine(m)], path)
            <==> LineMatches(StarLine(m), RootedPath(path)) || LineVerdict(lines, path)
  {
    StarLineIsPlain(m);
    assert StarLine(m) in lines + [StarLine(m)];
    LineVerdictSnoc(lines, StarLine(m), path);
  }

  lemma MoreSlashes(q: string, a: nat, b: nat)
    requires a < b <= |q| && q[b - 1] == '/'
    ensures Slashes(q[..a]) < Slashes(q[..b])
  {
    assert q[..b] == q[..a] + q[a..b];
    SlashesConcat(q[..a], q[a..b]);
    NoSlashes(q[a..b]);
    assert q[a..b][b - a - 1] == '/';
  }

  /** A prefix that ends in a slash is determined by its number of slashes. */
  lemma PrefixBySlashes(q: string, j: nat, k: nat)
    requires 0 < j <= |q| && 0 < k <= |q| && q[j - 1] == '/' && q[k - 1] == '/'
    requires Slashes(q[..j]) == Slashes(q[..k])
    ensures j == k
  {
    if j < k {
      MoreSlashes(q, j, k);
    } else if k < j {
      MoreSlashes(q, k, j);
    }
  }

  lemma StarDeepMisses(m: nat, front: string, tail: string)
    requires front != "" && front[|front| - 1] == '/' && Slashes(front) == m + 1 && !EndsDeep(tail)
    ensures !Denotes(StarHead(m) + "**/*", front + tail, false)
  {
    var q, head := front + tail, StarHead(m);
    assert q[|front|..] == tail;
    if Denotes(head + "**/*", q, false) {
      var k := DenotesSplit(head, "**/*", q, false);
      DeepTailDenotes(q[k..]);
      StarHeadDenotes(m, q[..k]);
      assert q[..k][k - 1] == q[k - 1];
      assert q[..|front|] == front && q[|front| - 1] == front[|front| - 1];
      PrefixBySlashes(q, k, |front|);
    }
  }

  /** A star line reaches no path whose part after the right number of slashes breaks a line. */
  lemma StarBaseMisses(m: nat, front: string, tail: string, q: string)
    requires q == front + tail
    requires front != "" && front[|front| - 1] == '/' && Slashes(front) == m + 1
    requires LastIndex(tail, '/') >= 0 && !EndsDeep(tail)
    ensures !BaseDenotes(StarLine(m).pattern, StarHead(m), q)
  {
    SlashesConcat(front, tail);
    NoSlashes(tail);
    StarDeepMisses(m, front, tail);
    if Denotes(StarLine(m).pattern, q, false) {
      BareStarSlashes(m, q);
    } else if Denotes(StarHead(m) + "*", q, false) {
      StarChildSlashes(m, q);
    }
  }

  lemma StarChildSlashes(m: nat, q: string)
    requires Denotes(StarHead(m) + "*", q, false)
    ensures Slashes(q) == m + 1
  {
    var k := DenotesSplit(StarHead(m), "*", q, false);
    StarHeadDenotes(m, q[..k]);
    StarDenotes(q[k..]);
    NoSlashes(q[k..]);
    SlashesConcat(q[..k], q[k..]);
    assert q[..k] + q[k..] == q;
  }

  lemma BareStarSlashes(m: nat, q: string)
    requires Denotes(StarLine(m).pattern, q, false)
    ensures Slashes(q) <= m + 1
  {
    StarLineText(m);
    if m == 0 {
      assert StarHead(0) == "/";
      StarHeadDenotes(0, q);
    } else {
      StarChildSlashes(m - 1, q);
    }
  }

  lemma StarChildHits(n: nat, directory: string)
    requires directory != "" && directory[0] == '/' && Slashes(directory) == n + 1
    ensures Denotes(StarHead(n) + "*", directory, false)
  {
    var i := LastIndex(directory, '/');
    var front, last := directory[..i + 1], directory[i + 1..];
    assert directory == front + last;
    SlashesConcat(front, last);
    NoSlashes(last);
    StarHeadDenotes(n, front);
    StarDenotes(last);
    DenotesJoin(StarHead(n), "*", front, last, false);
  }

  /** A star line with one star less than slashes reaches a rooted directory as a child. */
  lemma StarBaseHitsChild(m: nat, directory: string)
    requires directory != "" && directory[0] == '/' && Slashes(directory) == m + 1
    ensures BaseDenotes(StarLine(m).pattern, StarHead(m), directory)
  {
    StarChildHits(m, directory);
  }

  /** A star line with one star per slash reaches a rooted directory itself. */
  lemma StarBaseHitsBare(m: nat, directory: string)
    requires m > 0 && directory != "" && directory[0] == '/' && Slashes(directory) == m
    ensures BaseDenotes(StarLine(m).pattern, StarHead(m), directory)
  {
    StarChildHits(m - 1, directory);
    StarLineText(m);
  }

  /** A rooted directory is what ends in its last slash, followed by its last component. */
  lemma LastSlashSplit(directory: string) returns (front: string)
    requires directory != "" && directory[0] == '/'
    ensures directory == front + LastComponent(directory)
    ensures front != "" && front[|front| - 1] == '/' && Slashes(front) == Slashes(directory) > 0
  {
    var i := LastIndex(directory, '/');
    front := directory[..i + 1];
    assert directory == front + LastComponent(directory);
    SlashesConcat(front, LastComponent(directory));
    NoSlashes(LastComponent(directory));
    NoSlashes(directory);
  }

  /** A newline in the directory's last component. */
  lemma BrokenComponentWitness(directory: string, below: string) returns (m: nat)
    requires directory != "" && directory[0] == '/' && '\n' in LastComponent(directory)
    ensures m + 1 == Slashes(directory)
    ensures !BaseDenotes(StarLine(m).pattern, StarHead(m), directory + "/" + below)
  {
    var front := LastSlashSplit(directory);
    var tail := LastComponent(directory) + "/" + below;
    m := Slashes(directory) - 1;
    BrokenTail(LastComponent(directory), below);
    assert directory + "/" + below == front + tail;
    StarBaseMisses(m, front, tail, directory + "/" + below);
  }

  lemma BrokenTail(last: string, below: string)
    requires '\n' in last
    ensures var tail := last + "/" + below; LastIndex(tail, '/') >= 0 && '\n' in tail[..LastIndex(tail, '/')]
  {
    var tail := last + "/" + below;
    var j := LastIndex(tail, '/');
    assert tail[|last|] == '/';
    assert j >= |last|;
    assert last <= tail[..j];
  }

  /** A newline in the path below, before its last slash. */
  lemma BrokenPathWitness(directory: string, below: string)
    requires directory != "" && directory[0] == '/'
    requires exists k :: 0 <= k < LastIndex(below, '/') && below[k] == '\n'
    ensures !BaseDenotes(StarLine(Slashes(directory)).pattern, StarHead(Slashes(directory)), directory + "/" + below)
  {
    var j := LastIndex(below, '/');
    var k :| 0 <= k < j && below[k] == '\n';
    assert below[..j][k] == '\n';
    SlashesConcat(directory, "/");
    assert Slashes("/") == 1 by { assert "/"[1..] == ""; }
    StarBaseMisses(Slashes(directory), directory + "/", below, directory + "/" + below);
  }

  /** The star line that ignores an unsafe directory and keeps a path below it. */
  lemma StarLineWitness(directory: string, below: string) returns (m: nat)
    requires directory != "" && directory[0] == '/' && !NewlineSafe(directory, below)
    ensures BaseDenotes(StarLine(m).pattern, StarHead(m), directory)
    ensures !BaseDenotes(StarLine(m).pattern, StarHead(m), directory + "/" + below)
  {
    if '\n' in LastComponent(directory) {
      m := BrokenComponentWitness(directory, below);
      StarBaseHitsChild(m, directory);
    } else {
      m := Slashes(directory);
      BrokenPathWitness(directory, below);
      NoSlashes(directory);
      StarBaseHitsBare(m, directory);
    }
  }

  lemma StarLineVerdictDenotes(lines: seq<Line>, m: nat, path: string)
    ensures LineVerdict(lines + [StarLine(m)], path)
            <==> BaseDenotes(StarLine(m).pattern, StarHead(m), ToSlash(RootedPath(path))) || LineVerdict(lines, path)
  {
    StarLineLast(lines, m, path);
    StarLineMatches(m, RootedPath(path));
  }

  lemma RootedBelow(directory: string, below: string)
    requires directory != ""
    ensures ToSlash(RootedPath(directory + "/" + below)) == ToSlash(RootedPath(directory)) + "/" + ToSlash(below)
  {
    SlashBelow(RootedPath(directory), below);
    assert RootedPath(directory + "/" + below) == RootedPath(directory) + "/" + below by {
      assert "/" + (directory + "/" + below) == "/" + directory + "/" + below;
    }
  }

  lemma StarLineTellsApart(lines: seq<Line>, m: nat, directory: string, below: string)
    requires directory != "" && !LineVerdict(lines, directory + "/" + below)
    requires var d := ToSlash(RootedPath(directory));
             BaseDenotes(StarLine(m).pattern, StarHead(m), d)
             && !BaseDenotes(StarLine(m).pattern, StarHead(m), d + "/" + ToSlash(below))
    ensures LineVerdict(lines + [StarLine(m)], directory)
            && !LineVerdict(lines + [StarLine(m)], directory + "/" + below)
  {
    RootedBelow(directory, below);
    StarLineVerdictDenotes(lines, m, directory);
    StarLineVerdictDenotes(lines, m, directory + "/" + below);
  }

  lemma RootedShape(directory: string, rooted: string)
    requires directory != "" && rooted == ToSlash(RootedPath(directory))
    ensures rooted != "" && rooted[0] == '/' && LastComponent(rooted) == LastComponent(ToSlash(directory))
  {
    ToSlashRoot(directory);
    RootedLastComponent(ToSlash(directory));
  }

  lemma UnsafeWitness(directory: string, below: string) returns (m: nat)
    requires directory != "" && !NewlineSafe(ToSlash(directory), below)
    ensures BaseDenotes(StarLine(m).pattern, StarHead(m), ToSlash(RootedPath(directory)))
    ensures !BaseDenotes(StarLine(m).pattern, StarHead(m), ToSlash(RootedPath(directory)) + "/" + below)
  {
    var rooted := ToSlash(RootedPath(directory));
    RootedShape(directory, rooted);
    m := StarLineWitness(rooted, below);
  }

  // ---------- what the default lines can match ----------

  /** Literals and `**` only. */
  predicate NoWildcard(pat: string) {
    pat == ""
    || (if OpensDouble(pat) then NoWildcard(pat[2..]) else pat[0] !in "*?\n" && NoWildcard(pat[1..]))
  }

  lemma {:induction false} NoWildcardNoNewline(pat: string, s: string)
    requires NoWildcard(pat) && Denotes(pat, s, false)
    ensures '\n' !in s
    decreases |pat|
  {
    if pat != "" {
      if OpensDouble(pat) {
        var k :| 0 <= k <= |s| && '\n' !in s[..k] && Denotes(pat[2..], s[k..], false);
        NoWildcardNoNewline(pat[2..], s[k..]);
        assert s == s[..k] + s[k..];
      } else {
        NoWildcardNoNewline(pat[1..], s[1..]);
        assert s == [s[0]] + s[1..];
      }
    }
  }

  /** No newline before the last slash. */
  predicate NewlinesLast(s: string) {
    forall i :: 0 <= i < LastIndex(s, '/') ==> s[i] != '\n'
  }

  lemma NewlinesBehind(s: string, k: nat)
    requires k <= |s| && '\n' !in s[..k] && ('/' !in s[k..] || EndsDeep(s[k..]))
    ensures NewlinesLast(s)
  {
    var n := LastIndex(s, '/');
    var tail := s[k..];
    forall i | 0 <= i < n ensures s[i] != '\n' {
      if i < k {
        assert s[i] == s[..k][i];
      } else {
        assert tail[n - k] == '/';
        LastIndexIs(s, '/', k + LastIndex(tail, '/'));
        assert s[i] == tail[..n - k][i - k];
      }
    }
  }

  lemma SplitChild(head: string, directory: string) returns (k: nat)
    requires Seam(head, "*") && Denotes(head + "*", directory, false)
    ensures k <= |directory| && Denotes(head, directory[..k], false) && '/' !in directory[k..]
  {
    k := DenotesSplit(head, "*", directory, false);
    StarDenotes(directory[k..]);
  }

  lemma SplitDeep(head: string, directory: string) returns (k: nat)
    requires Seam(head, "*") && Denotes(head + "**/*", directory, false)
    ensures k <= |directory| && Denotes(head, directory[..k], false) && EndsDeep(directory[k..])
  {
    k := DenotesSplit(head, "**/*", directory, false);
    DeepTailDenotes(directory[k..]);
  }

  /** A base without wildcards reaches newlines only with its last star, so only behind the last slash. */
  lemma BaseNewlinesLast(bare: string, head: string, s: string)
    requires NoWildcard(bare) && NoWildcard(head) && (head != "" ==> head[|head| - 1] == '/')
    requires BaseDenotes(bare, head, s)
    ensures NewlinesLast(s)
  {
    if Denotes(bare, s, false) {
      NoWildcardNoNewline(bare, s);
    } else if Denotes(head + "*", s, false) {
      var k := SplitChild(head, s);
      NoWildcardNoNewline(head, s[..k]);
      NewlinesBehind(s, k);
    } else {
      var k := SplitDeep(head, s);
      NoWildcardNoNewline(head, s[..k]);
      NewlinesBehind(s, k);
    }
  }

  /** A plain name that also holds no wildcard. */
  predicate FileName(name: string) {
    PlainName(name) && '*' !in name && '?' !in name && '\n' !in name
  }

  lemma {:induction false} NoWildcardAppend(a: string, b: string)
    requires NoWildcard(a) && forall c :: c in b ==> c !in "*?\n"
    ensures NoWildcard(a + b)
    decreases |a| + |b|
  {
    if a == "" {
      assert a + b == b;
      if b != "" {
        assert b[0] in b && forall c :: c in b[1..] ==> c in b;
        NoWildcardAppend("", b[1..]);
        assert "" + b[1..] == b[1..];
      }
    } else {
      var n := StarsWidth(a);
      assert (a + b)[n..] == a[n..] + b;
      NoWildcardAppend(a[n..], b);
    }
  }

  lemma FileNameComponents(rooted: bool, name: string)
    requires FileName(name)
    ensures Normal(rooted, [name]) && DeepComponents([name]) == ["**", name]
    ensures Render(rooted, [name]) == (if rooted then "/" else "") + name
    ensures Plain(Line(true, Render(rooted, [name]))) && Clean(Render(rooted, [name])) == Render(rooted, [name])
  {
    var p := Render(rooted, [name]);
    assert Join([name], '/') == name;
    assert p == (if rooted then "/" else "") + name;
    RenderReduces(rooted, [name]);
    RenderAccepted(rooted, [name]);
    SlashFree(p);
    NoBraceNoCounts(p);
  }

  lemma FileHereTexts(rooted: bool, name: string, bare: string)
    requires FileName(name) && bare == (if rooted then "/" else "") + name
    ensures BareText(rooted, [name]) == bare && HeadSlash(rooted, [name]) == bare + "/"
  {
    FileNameComponents(rooted, name);
    HeadShape(rooted, [name]);
    SlashFree(bare);
  }

  lemma FileDeepTexts(name: string, deep: string)
    requires FileName(name) && deep == "**/" + name
    ensures BareText(false, ["**", name]) == deep && HeadSlash(false, ["**", name]) == deep + "/"
  {
    FileNameComponents(false, name);
    DeepIsNormal([name]);
    HeadShape(false, ["**", name]);
    JoinTwo("**", name);
    assert "**" + "/" + name == deep;
    SlashFree(deep);
  }

  lemma FileTextsNoWildcard(front: string, name: string)
    requires front in {"", "/", "**/"} && FileName(name)
    ensures NoWildcard(front + name) && NoWildcard(front + name + "/")
  {
    assert "**/"[2..] == "/" && "/"[1..] == "";
    NoWildcardAppend(front, name);
    NoWildcardAppend(front + name, "/");
  }

  lemma FileBaseMisses(front: string, name: string, bare: string, s: string)
    requires front in {"", "/", "**/"} && FileName(name) && bare == front + name && !NewlinesLast(s)
    ensures !BaseDenotes(bare, bare + "/", s)
  {
    FileTextsNoWildcard(front, name);
    if BaseDenotes(bare, bare + "/", s) {
      BaseNewlinesLast(bare, bare + "/", s);
    }
  }

  lemma FileLineDenotes(rooted: bool, name: string, path: string, bare: string, deep: string)
    requires FileName(name) && bare == (if rooted then "/" else "") + name && deep == "**/" + name
    ensures LineMatches(Line(true, Render(rooted, [name])), path) ==>
              BaseDenotes(bare, bare + "/", ToSlash(path)) || BaseDenotes(deep, deep + "/", ToSlash(path))
  {
    var line := Line(true, Render(rooted, [name]));
    FileNameComponents(rooted, name);
    RenderReduces(rooted, [name]);
    LineDenotesAs(line, path, rooted, [name]);
    FileHereTexts(rooted, name, bare);
    FileDeepTexts(name, deep);
  }

  /** The line of a file name matches no path with a newline before its last slash. */
  lemma FileLineMisses(rooted: bool, name: string, path: string)
    requires FileName(name) && !NewlinesLast(ToSlash(path))
    ensures !LineMatches(Line(true, Render(rooted, [name])), path)
  {
    var bare, deep := (if rooted then "/" else "") + name, "**/" + name;
    FileLineDenotes(rooted, name, path, bare, deep);
    FileBaseMisses(if rooted then "/" else "", name, bare, ToSlash(path));
    FileBaseMisses("**/", name, deep, ToSlash(path));
  }

  /** Each default line is a file name, rooted or not. */
  predicate IsFileRaw(raw: string) {
    FileName(raw) || (IsRooted(raw) && FileName(raw[1..]))
  }

  predicate IsNameChar(c: char) {
    'a' <= c <= 'z' || 'A' <= c <= 'Z' || c == '_' || c == '.'
  }

  predicate NameChars(s: string) {
    forall i :: 0 <= i < |s| ==> IsNameChar(s[i])
  }

  lemma NameIsFile(name: string)
    requires |name| > 2 && NameChars(name)
    ensures FileName(name)
  {
    assert name[0] in name && name[|name| - 1] in name;
    assert forall c :: c in name ==> IsNameChar(c);
  }

  lemma NamesAreFiles(raws: seq<string>, names: seq<string>)
    requires |raws| == |names|
    requires forall name :: name in names ==> |name| > 2 && NameChars(name)
    requires forall i :: 0 <= i < |raws| ==> raws[i] == names[i] || raws[i] == "/" + names[i]
    ensures forall raw :: raw in raws ==> IsFileRaw(raw)
  {
    forall raw | raw in raws ensures IsFileRaw(raw) {
      var i :| 0 <= i < |raws| && raws[i] == raw;
      assert names[i] in names;
      NameIsFile(names[i]);
      assert raw == "/" + names[i] ==> raw[1..] == names[i];
    }
  }

  const DEFAULT_NAMES: seq<string> := [
    ".cfignore", "manifest.yml", ".gitignore", ".git", ".hg", ".svn", "_darcs", ".DS_Store"
  ]

  lemma DefaultNamesArePlain()
    ensures forall name :: name in DEFAULT_NAMES ==> |name| > 2 && NameChars(name)
  {
  }

  lemma DefaultNamesFit()
    ensures |DEFAULT_NAMES| == |DEFAULT_IGNORE_LINES|
    ensures forall i :: 0 <= i < |DEFAULT_NAMES| ==>
              DEFAULT_IGNORE_LINES[i] == DEFAULT_NAMES[i] || DEFAULT_IGNORE_LINES[i] == "/" + DEFAULT_NAMES[i]
  {
    assert "/" + "manifest.yml" == "/manifest.yml";
  }

  lemma DefaultsAreFiles()
    ensures forall raw :: raw in DEFAULT_IGNORE_LINES ==> IsFileRaw(raw)
  {
    DefaultNamesArePlain();
    DefaultNamesFit();
    NamesAreFiles(DEFAULT_IGNORE_LINES, DEFAULT_NAMES);
  }

  lemma ParsePlainRaw(raw: string)
    requires raw != "" && !IsSpace(raw[0]) && !IsSpace(raw[|raw| - 1]) && raw[0] != '!'
    ensures ParseLine(raw) == [Line(true, Clean(raw))]
  {
    assert TrimSpace(raw) == raw;
  }

  lemma NotSpace(c: char)
    requires c == '/' || c == '*'
    ensures !IsSpace(c) && c != '!' && c != '\n'
  {
  }

  lemma FileNameEnds(name: string)
    requires FileName(name)
    ensures name != "" && !IsSpace(name[0]) && !IsSpace(name[|name| - 1]) && name[0] != '!' && name[0] != '/'
  {
  }

  lemma RawOf(rooted: bool, name: string, raw: string)
    requires FileName(name) && raw == (if rooted then "/" + name else name)
    ensures ParseLine(raw) == [Line(true, Clean(raw))]
  {
    FileNameEnds(name);
    NotSpace('/');
    assert raw[|raw| - 1] == name[|name| - 1];
    ParsePlainRaw(raw);
  }

  lemma FileRawLine(raw: string) returns (rooted: bool, name: string)
    requires IsFileRaw(raw)
    ensures FileName(name) && ParseLine(raw) == [Line(true, Render(rooted, [name]))]
  {
    rooted := !FileName(raw);
    name := if rooted then raw[1..] else raw;
    assert raw == if rooted then "/" + name else name;
    RawOf(rooted, name, raw);
    FileNameComponents(rooted, name);
  }

  lemma {:induction false} FileRawLines(raws: seq<string>, line: Line) returns (rooted: bool, name: string)
    requires (forall raw :: raw in raws ==> IsFileRaw(raw)) && line in ParseLines(raws)
    ensures FileName(name) && line == Line(true, Render(rooted, [name]))
  {
    var front, last := raws[..|raws| - 1], raws[|raws| - 1];
    assert last in raws;
    if line in ParseLines(front) {
      rooted, name := FileRawLines(front, line);
    } else {
      rooted, name := FileRawLine(last);
    }
  }

  lemma DefaultLine(line: Line) returns (rooted: bool, name: string)
    requires line in ParseLines(DEFAULT_IGNORE_LINES)
    ensures FileName(name) && line == Line(true, Render(rooted, [name]))
  {
    DefaultsAreFiles();
    rooted, name := FileRawLines(DEFAULT_IGNORE_LINES, line);
  }

  /** The default lines are plain exclude lines. */
  lemma DefaultsExclude()
    ensures forall line :: line in ParseLines(DEFAULT_IGNORE_LINES) ==> Plain(line) && line.exclude
  {
    forall line | line in ParseLines(DEFAULT_IGNORE_LINES) ensures Plain(line) && line.exclude {
      var rooted, name := DefaultLine(line);
      FileNameComponents(rooted, name);
    }
  }

  /** No default line ignores a path with a newline before its last slash. */
  lemma DefaultsMiss(path: string)
    requires !NewlinesLast(ToSlash(path)) && !NewlinesLast(ToSlash("/" + path))
    ensures !LineVerdict(ParseLines(DEFAULT_IGNORE_LINES), path)
  {
    var lines := ParseLines(DEFAULT_IGNORE_LINES);
    if LineVerdict(lines, path) {
      var k := VerdictHasMatch(lines, path);
      var rooted, name := DefaultLine(lines[k]);
      FileLineMisses(rooted, name, PathSeen(lines[..k + 1], path));
      assert false;
    }
  }

  // ---------- exactly when the set is closed, for every object ----------

  lemma NewlineBeforeSlash(s: string, i: nat, j: nat)
    requires i < j < |s| && s[i] == '\n' && s[j] == '/'
    ensures !NewlinesLast(s)
  {
    assert LastIndex(s, '/') >= j;
  }

  lemma UnsafeHasNewline(directory: string, below: string)
    requires !NewlineSafe(directory, below)
    ensures !NewlinesLast(directory + "/" + below)
  {
    var s := directory + "/" + below;
    assert s[|directory|] == '/';
    if '\n' in LastComponent(directory) {
      var i :| 0 <= i < |LastComponent(directory)| && LastComponent(directory)[i] == '\n';
      NewlineBeforeSlash(s, LastIndex(directory, '/') + 1 + i, |directory|);
    } else {
      var n := LastIndex(below, '/');
      var i :| 0 <= i < n && below[i] == '\n';
      assert s[|directory| + 1 + i] == below[i] && s[|directory| + 1 + n] == below[n];
      NewlineBeforeSlash(s, |directory| + 1 + i, |directory| + 1 + n);
    }
  }

  lemma RootedNewline(s: string)
    requires !NewlinesLast(s)
    ensures !NewlinesLast("/" + s)
  {
    var n := LastIndex(s, '/');
    var i :| 0 <= i < n && s[i] == '\n';
    assert ("/" + s)[i + 1] == s[i] && ("/" + s)[n + 1] == s[n];
    NewlineBeforeSlash("/" + s, i + 1, n + 1);
  }

  lemma DefaultsMissUnsafe(directory: string, below: string)
    requires !NewlineSafe(ToSlash(directory), ToSlash(below))
    ensures !LineVerdict(ParseLines(DEFAULT_IGNORE_LINES), directory + "/" + below)
  {
    var path := directory + "/" + below;
    SlashBelow(directory, below);
    UnsafeHasNewline(ToSlash(directory), ToSlash(below));
    ToSlashRoot(path);
    RootedNewline(ToSlash(path));
    DefaultsMiss(path);
  }

  /** The lines of a new object that has parsed a text; several texts are one, joined by line breaks. */
  function LinesAfter(text: string): seq<Line> {
    ParseLines(DEFAULT_IGNORE_LINES) + ParseLines(Split(text, '\n'))
  }

  /** The text of a star line parses to that line. */
  lemma StarLineParses(m: nat)
    ensures ParseLines(Split(StarLine(m).pattern, '\n')) == [StarLine(m)]
  {
    var text := StarLine(m).pattern;
    var n := |text| - 1;
    StarLineIsPlain(m);
    StarLineText(m);
    forall c | c in text ensures !IsSpace(c) && c != '!' && c != '\n' {
      NotSpace(c);
    }
    assert text[0] in text && text[n] in text;
    SplitWhole(text, '\n');
    ParseOne(text);
  }

  /** An object that has parsed a text without a panic. */
  predicate Parses(text: string) {
    Patterns(LinesAfter(text)).Ok?
  }

  lemma PlainLineCompiles(line: Line)
    requires Plain(line)
    ensures CompileAll(GlobTexts(line.pattern)).Ok?
  {
    ParsesExactlyWhenSafe(line.pattern);
  }

  lemma PlainLinesParse(lines: seq<Line>)
    requires forall line :: line in lines ==> Plain(line)
    ensures Patterns(lines).Ok?
  {
    PatternsOk(lines);
    forall line | line in lines ensures CompileAll(GlobTexts(line.pattern)).Ok? {
      PlainLineCompiles(line);
    }
  }

  /** An unsafe directory and path: one exclude line in the file tells them apart, whatever the defaults. */
  lemma UnsafeIsKept(directory: string, below: string) returns (text: string)
    requires directory != "" && !NewlineSafe(ToSlash(directory), ToSlash(below))
    ensures Parses(text) && ExcludeOnly(LinesAfter(text))
    ensures LineVerdict(LinesAfter(text), directory) && !LineVerdict(LinesAfter(text), directory + "/" + below)
  {
    var m := UnsafeWitness(directory, ToSlash(below));
    text := StarLine(m).pattern;
    StarLineParses(m);
    DefaultsMissUnsafe(directory, below);
    StarLineTellsApart(ParseLines(DEFAULT_IGNORE_LINES), m, directory, below);
    DefaultsExclude();
    StarLineIsPlain(m);
    PlainLinesParse(LinesAfter(text));
  }

  lemma LinesAfterCleaned(text: string)
    ensures Cleaned(LinesAfter(text))
  {
    ParseLinesCleaned(DEFAULT_IGNORE_LINES);
    ParseLinesCleaned(Split(text, '\n'));
  }

  /**
   Whatever lines without `!` a new object parses, a directory's verdict carries over to a path below
   it, if and only if no newline stands between the start of the directory's last component and the
   path's last slash.
   */
  lemma ClosedExactly(directory: string, below: string)
    requires directory != ""
    ensures (forall text :: Parses(text) && ExcludeOnly(LinesAfter(text)) && LineVerdict(LinesAfter(text), directory)
                            ==> LineVerdict(LinesAfter(text), directory + "/" + below))
            <==> NewlineSafe(ToSlash(directory), ToSlash(below))
  {
    if NewlineSafe(ToSlash(directory), ToSlash(below)) {
      forall text | ExcludeOnly(LinesAfter(text)) && LineVerdict(LinesAfter(text), directory)
        ensures LineVerdict(LinesAfter(text), directory + "/" + below)
      {
        LinesAfterCleaned(text);
        NothingKeptBelow(LinesAfter(text), directory, below);
      }
    } else {
      var text := UnsafeIsKept(directory, below);
    }
  }
}
