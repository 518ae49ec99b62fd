/** What single lines of an ignore file, and the default lines of a new object, do to the verdict on a path. */
module IgnoreVerdicts {
  import opened Text
  import opened Paths
  import opened Globs
  import opened GlobReading
  import opened GlobMeaning
  import opened IgnoreSpec
  import opened IgnoreFamily
  import opened IgnoreMeaning
  import opened IgnoreRooting
  import opened IgnoreClosure
  import opened IgnoreReachable
  import opened CfIgnore

  // ---------- white space ----------

  predicate Spaces(s: string) {
    forall i :: 0 <= i < |s| ==> IsSpace(s[i])
  }

  /** Blanks, tabs, line breaks and form feeds are white space; visible ASCII characters are not. */
  lemma WhatIsSpace(c: char)
    ensures c in " \t\n\r\U{0B}\U{0C}" ==> IsSpace(c)
    ensures '!' <= c <= '~' ==> !IsSpace(c)
  {
  }

  lemma {:induction false} TrimLeft(u: string, s: string)
    requires Spaces(u)
    ensures TrimSpace(u + s) == TrimSpace(s)
  {
    if u == "" {
      assert u + s == s;
    } else {
      assert (u + s)[1..] == u[1..] + s;
      TrimLeft(u[1..], s);
    }
  }

  lemma {:induction false} TrimRight(s: string, v: string)
    requires Spaces(v) && s != "" && !IsSpace(s[0]) && !IsSpace(s[|s| - 1])
    ensures TrimSpace(s + v) == s
  {
    if v == "" {
      assert s + v == s;
    } else {
      assert (s + v)[..|s + v| - 1] == s + v[..|v| - 1];
      TrimRight(s, v[..|v| - 1]);
    }
  }

  /** Surrounding white space is trimmed, and nothing else. */
  lemma TrimSurrounding(u: string, s: string, v: string)
    requires Spaces(u) && Spaces(v) && s != "" && !IsSpace(s[0]) && !IsSpace(s[|s| - 1])
    ensures TrimSpace(u + s + v) == s
  {
    assert u + s + v == u + (s + v);
    TrimLeft(u, s + v);
    TrimRight(s, v);
  }

  lemma TrimBlank(u: string)
    requires Spaces(u)
    ensures TrimSpace(u) == ""
  {
    TrimLeft(u, "");
    assert u + "" == u;
  }

  // ---------- one more line in the file ----------

  /** The file with these lines. */
  function FileText(raws: seq<string>): string {
    Join(raws, '\n')
  }

  ghost predicate AreLines(raws: seq<string>) {
    forall raw :: raw in raws ==> '\n' !in raw
  }

  lemma FileLines(raws: seq<string>)
    requires AreLines(raws)
    ensures LinesAfter(FileText(raws)) == ParseLines(DEFAULT_IGNORE_LINES) + ParseLines(raws)
  {
    if raws == [] {
      SplitWhole("", '\n');
      TrimBlank("");
      BlankLine([], "");
      assert [] + [""] == [""];
    } else {
      SplitJoin(raws, '\n');
    }
  }

  /** Every file is the text of its lines. */
  lemma EveryFileHasLines(text: string)
    ensures AreLines(Split(text, '\n')) && FileText(Split(text, '\n')) == text
  {
    JoinSplit(text, '\n');
  }

  lemma Associate<T>(a: seq<T>, b: seq<T>, c: seq<T>)
    ensures a + (b + c) == a + b + c
  {
  }

  lemma FileSnoc(raws: seq<string>, raw: string)
    requires AreLines(raws + [raw])
    ensures LinesAfter(FileText(raws + [raw])) == LinesAfter(FileText(raws)) + ParseLine(raw)
  {
    assert AreLines(raws) by {
      assert forall r :: r in raws ==> r in raws + [raw];
    }
    FileLines(raws);
    FileLines(raws + [raw]);
    ParseLinesSnoc(raws, raw);
    Associate(ParseLines(DEFAULT_IGNORE_LINES), ParseLines(raws), ParseLine(raw));
  }

  /** A line behind the default ones sees the rooted path. */
  lemma SeenRooted(text: string, more: seq<Line>, path: string)
    ensures PathSeen(LinesAfter(text) + more, path) == RootedPath(path)
  {
    var first, second := FirstDefaultLines();
    assert [first, second][1] == ParseLines(DEFAULT_IGNORE_LINES)[1];
    assert second == (LinesAfter(text) + more)[1];
  }

  lemma OneLineMore(text: string, line: Line, globs: seq<Glob>, path: string)
    requires CompileAll(GlobTexts(line.pattern)) == Ok(globs)
    ensures LineVerdict(LinesAfter(text) + [line], path)
            == if AnyMatch(globs, RootedPath(path)) then line.exclude else LineVerdict(LinesAfter(text), path)
    ensures Patterns(LinesAfter(text) + [line]).Ok? <==> Parses(text)
  {
    SeenRooted(text, [line], path);
    LineVerdictSnoc(LinesAfter(text), line, path);
    CollectSnoc(LinePatterns, LinesAfter(text), line);
  }

  /**
   A line `!p` at the end of a file, white space around it or not, keeps every path that p matches, whatever
   the lines before it say, and decides nothing else.
   */
  lemma NegatedLineKeeps(raws: seq<string>, u: string, p: string, v: string, globs: seq<Glob>, path: string)
    requires AreLines(raws + [u + ("!" + p) + v]) && Spaces(u) && Spaces(v) && (p != "" ==> !IsSpace(p[|p| - 1]))
    requires CompileAll(GlobTexts(Clean(p))) == Ok(globs)
    ensures var before, after := FileText(raws), FileText(raws + [u + ("!" + p) + v]);
            && (Parses(after) <==> Parses(before))
            && (AnyMatch(globs, RootedPath(path)) ==> !LineVerdict(LinesAfter(after), path))
            && (!AnyMatch(globs, RootedPath(path)) ==>
                  LineVerdict(LinesAfter(after), path) == LineVerdict(LinesAfter(before), path))
  {
    var line := "!" + p;
    WhatIsSpace('!');
    TrimSurrounding(u, line, v);
    assert line[1..] == p;
    FileSnoc(raws, u + line + v);
    OneLineMore(FileText(raws), Line(false, Clean(p)), globs, path);
  }

  /** A line p without `!` ignores every path that p matches, and decides nothing else. */
  lemma PlainLineIgnores(raws: seq<string>, u: string, p: string, v: string, globs: seq<Glob>, path: string)
    requires AreLines(raws + [u + p + v]) && Spaces(u) && Spaces(v)
    requires p != "" && p[0] != '!' && !IsSpace(p[0]) && !IsSpace(p[|p| - 1])
    requires CompileAll(GlobTexts(Clean(p))) == Ok(globs)
    ensures var before, after := FileText(raws), FileText(raws + [u + p + v]);
            && (Parses(after) <==> Parses(before))
            && (AnyMatch(globs, RootedPath(path)) ==> LineVerdict(LinesAfter(after), path))
            && (!AnyMatch(globs, RootedPath(path)) ==>
                  LineVerdict(LinesAfter(after), path) == LineVerdict(LinesAfter(before), path))
  {
    TrimSurrounding(u, p, v);
    FileSnoc(raws, u + p + v);
    OneLineMore(FileText(raws), Line(true, Clean(p)), globs, path);
  }

  /** A line of white space decides nothing. */
  lemma BlankLineDecidesNothing(raws: seq<string>, u: string, path: string)
    requires AreLines(raws + [u]) && Spaces(u)
    ensures var before, after := FileText(raws), FileText(raws + [u]);
            (Parses(after) <==> Parses(before))
            && LineVerdict(LinesAfter(after), path) == LineVerdict(LinesAfter(before), path)
  {
    TrimBlank(u);
    FileSnoc(raws, u);
    assert LinesAfter(FileText(raws)) + [] == LinesAfter(FileText(raws));
  }

  /** A line whose pattern does not compile panics, with or without `!`. */
  lemma UncompiledLinePanics(raws: seq<string>, u: string, bang: string, p: string, v: string)
    requires AreLines(raws + [u + (bang + p) + v]) && Spaces(u) && Spaces(v) && bang in {"", "!"}
    requires p != "" && p[0] != '!' && !IsSpace(p[0]) && !IsSpace(p[|p| - 1])
    requires CompileAll(GlobTexts(Clean(p))).Panic?
    ensures !Parses(FileText(raws + [u + (bang + p) + v]))
  {
    var line := bang + p;
    WhatIsSpace('!');
    TrimSurrounding(u, line, v);
    FileSnoc(raws, u + line + v);
    var parsed := Line(bang == "", Clean(p));
    if bang == "!" {
      assert line[1..] == p;
    } else {
      assert line == p;
    }
    CollectSnoc(LinePatterns, LinesAfter(FileText(raws)), parsed);
  }

  // ---------- lines that name a file ----------

  /** Is the name the first component of s? */
  predicate Heads(name: string, s: string) {
    s == name || name + "/" <= s
  }

  lemma {:induction false} FirstComponent(s: string, name: string)
    requires '/' !in name
    ensures Split(s, '/')[0] == name <==> Heads(name, s)
  {
    if s != "" && s[0] == '/' {
      if name == "" {
        assert name + "/" <= s;
      } else {
        assert name[0] in name;
        HeadsTail(s, name);
      }
    } else if s != "" {
      var first := Split(s[1..], '/')[0];
      assert Split(s, '/')[0] == [s[0]] + first;
      if name != "" {
        FirstComponent(s[1..], name[1..]);
        HeadsTail(s, name);
        assert name == [name[0]] + name[1..];
      } else {
        assert "/"[0] != s[0];
      }
    }
  }

  lemma HeadsTail(s: string, name: string)
    requires s != "" && name != ""
    ensures Heads(name, s) <==> s[0] == name[0] && Heads(name[1..], s[1..])
  {
    assert s == [s[0]] + s[1..] && name == [name[0]] + name[1..];
    assert name + "/" == [name[0]] + (name[1..] + "/");
    if s[0] == name[0] && name[1..] + "/" <= s[1..] {
      assert s[1..] == (name[1..] + "/") + s[1..][|name|..];
      assert s == (name + "/") + s[1..][|name|..];
    }
    if name + "/" <= s {
      assert s[..|name| + 1][1..] == s[1..][..|name|];
      assert (name + "/")[1..] == name[1..] + "/";
      assert s[0] == (name + "/")[0];
    }
  }

  /** The later components begin behind the slashes. */
  ghost predicate HeadsBelow(name: string, s: string) {
    exists k :: 0 <= k < |s| && s[k] == '/' && Heads(name, s[k + 1..])
  }

  lemma HeadsBelowTail(name: string, s: string)
    requires s != ""
    ensures HeadsBelow(name, s) <==> HeadsBelow(name, s[1..]) || (s[0] == '/' && Heads(name, s[1..]))
  {
    var t := s[1..];
    if HeadsBelow(name, t) {
      var k :| 0 <= k < |t| && t[k] == '/' && Heads(name, t[k + 1..]);
      assert s[k + 1] == '/' && s[k + 2..] == t[k + 1..];
    }
    if HeadsBelow(name, s) {
      var k :| 0 <= k < |s| && s[k] == '/' && Heads(name, s[k + 1..]);
      if k > 0 {
        assert t[k - 1] == '/' && t[k..] == s[k + 1..];
      }
    }
  }

  lemma {:induction false} LaterComponents(s: string, name: string)
    requires '/' !in name
    ensures name in Split(s, '/')[1..] <==> HeadsBelow(name, s)
  {
    if s != "" {
      var tail := Split(s[1..], '/');
      LaterComponents(s[1..], name);
      FirstComponent(s[1..], name);
      HeadsBelowTail(name, s);
      assert name in tail <==> name == tail[0] || name in tail[1..];
      assert Split(s, '/')[1..] == if s[0] == '/' then tail else tail[1..];
    }
  }

  lemma ComponentHeads(s: string, name: string)
    requires '/' !in name
    ensures name in Split(s, '/') <==> Heads(name, s) || HeadsBelow(name, s)
  {
    var parts := Split(s, '/');
    FirstComponent(s, name);
    LaterComponents(s, name);
    assert name in parts <==> name == parts[0] || name in parts[1..];
  }

  /** A text without wildcards denotes itself. */
  lemma {:induction false} LiteralThen(text: string, rest: string, s: string)
    requires '*' !in text && '?' !in text
    ensures Denotes(text + rest, s, false) <==> text <= s && Denotes(rest, s[|text|..], false)
  {
    if text == "" {
      assert text + rest == rest && s[0..] == s;
    } else {
      assert (text + rest)[1..] == text[1..] + rest;
      if s != "" {
        LiteralThen(text[1..], rest, s[1..]);
        assert text <= s <==> text[0] == s[0] && text[1..] <= s[1..];
        assert text <= s ==> s[1..][|text| - 1..] == s[|text|..];
      }
    }
  }

  /** On a path without newlines such a base matches the text and everything below it. */
  lemma LiteralBase(text: string, s: string)
    requires '*' !in text && '?' !in text && '\n' !in s
    ensures BaseDenotes(text, text + "/", s) <==> Heads(text, s)
  {
    var head := text + "/";
    LiteralThen(text, "", s);
    assert text + "" == text;
    LiteralThen(head, "*", s);
    LiteralThen(head, "**/*", s);
    if head <= s {
      StarDenotes(s[|head|..]);
      DeepTailDenotes(s[|head|..]);
      var tail := s[|head|..];
      assert '/' in tail ==> LastIndex(tail, '/') >= 0;
    }
  }

  /** Below any directory: the text behind some slash. */
  lemma DeepBase(name: string, s: string, text: string, deep: string)
    requires '*' !in name && '?' !in name && '\n' !in s
    requires text == "/" + name && deep == "**" + text
    ensures BaseDenotes(deep, deep + "/", s) <==> HeadsBelow(name, s)
  {
    DoubleThen(text, s);
    DoubleThen(text + "/" + "*", s);
    DoubleThen(text + "/" + "**/*", s);
    assert deep + "/" + "*" == "**" + (text + "/" + "*");
    assert deep + "/" + "**/*" == "**" + (text + "/" + "**/*");
    forall k | 0 <= k <= |s|
      ensures BaseDenotes(text, text + "/", s[k..]) <==> k < |s| && s[k] == '/' && Heads(name, s[k + 1..])
    {
      LiteralBase(text, s[k..]);
      if k < |s| {
        HeadsTail(s[k..], text);
        assert text[1..] == name && s[k..][1..] == s[k + 1..];
      }
    }
    if HeadsBelow(name, s) {
      var k :| 0 <= k < |s| && s[k] == '/' && Heads(name, s[k + 1..]);
      assert BaseDenotes(text, text + "/", s[k..]);
    }
  }

  lemma RootedHeads(name: string, s: string)
    ensures Heads("/" + name, s) <==> s != "" && s[0] == '/' && Heads(name, s[1..])
  {
    if s != "" {
      HeadsTail(s, "/" + name);
      assert ("/" + name)[1..] == name;
    }
  }

  lemma RootedLineDenotes(name: string, path: string, line: Line, text: string)
    requires FileName(name) && line == Line(true, Render(true, [name])) && text == "/" + name
    ensures LineMatches(line, path) <==> BaseDenotes(text, text + "/", ToSlash(path))
  {
    FileNameComponents(true, name);
    RenderReduces(true, [name]);
    LineDenotesAs(line, path, true, [name]);
    FileHereTexts(true, name, text);
  }

  lemma RootedLineMatches(name: string, path: string, line: Line)
    requires FileName(name) && '\n' !in path && line == Line(true, Render(true, [name]))
    ensures LineMatches(line, path) <==>
            ToSlash(path) != "" && ToSlash(path)[0] == '/' && Heads(name, ToSlash(path)[1..])
  {
    var text, s := "/" + name, ToSlash(path);
    RootedLineDenotes(name, path, line, text);
    LiteralBase(text, s);
    RootedHeads(name, s);
  }

  lemma AnywhereDenotes(name: string, s: string, deep: string)
    requires FileName(name) && '\n' !in s && deep == "**/" + name
    ensures BaseDenotes(name, name + "/", s) || BaseDenotes(deep, deep + "/", s) <==> name in Split(s, '/')
  {
    var text := "/" + name;
    LiteralBase(name, s);
    assert deep == "**" + text;
    DeepBase(name, s, text, deep);
    ComponentHeads(s, name);
  }

  lemma AnywhereLineDenotes(name: string, path: string, line: Line, deep: string)
    requires FileName(name) && line == Line(true, Render(false, [name])) && deep == "**/" + name
    ensures LineMatches(line, path) <==>
            BaseDenotes(name, name + "/", ToSlash(path)) || BaseDenotes(deep, deep + "/", ToSlash(path))
  {
    FileNameComponents(false, name);
    RenderReduces(false, [name]);
    LineDenotesAs(line, path, false, [name]);
    FileHereTexts(false, name, name);
    FileDeepTexts(name, deep);
  }

  lemma AnywhereLineMatches(name: string, path: string, line: Line)
    requires FileName(name) && '\n' !in path && line == Line(true, Render(false, [name]))
    ensures LineMatches(line, path) <==> name in Split(ToSlash(path), '/')
  {
    var deep := "**/" + name;
    AnywhereLineDenotes(name, path, line, deep);
    AnywhereDenotes(name, ToSlash(path), deep);
  }

  // ---------- the default lines ----------

  lemma FileRawParses(raw: string, rooted: bool, name: string)
    requires FileName(name) && raw == (if rooted then "/" + name else name)
    ensures ParseLine(raw) == [Line(true, raw)]
  {
    RawOf(rooted, name, raw);
    FileNameComponents(rooted, name);
  }

  lemma {:induction false} FileRawsParse(raws: seq<string>)
    requires forall raw :: raw in raws ==> IsFileRaw(raw)
    ensures |ParseLines(raws)| == |raws| && forall i :: 0 <= i < |raws| ==> ParseLines(raws)[i] == Line(true, raws[i])
  {
    if raws != [] {
      var front, last := raws[..|raws| - 1], raws[|raws| - 1];
      assert raws == front + [last] && last in raws && forall raw :: raw in front ==> raw in raws;
      FileRawsParse(front);
      FileRawParses(last, !FileName(last), if FileName(last) then last else last[1..]);
      ParseLinesSnoc(front, last);
    }
  }


  /** The components of the path, whether written with a leading slash or not. */
  function RootedParts(path: string): (parts: seq<string>)
    ensures |parts| > 1 && parts[0] == ""
  {
    Split(ToSlash(RootedPath(path)), '/')
  }

  lemma RootedPartsShape(path: string)
    ensures RootedParts(path)[1..] == Split(ToSlash(RootedPath(path))[1..], '/')
    ensures ToSlash(RootedPath(path))[0] == '/'
  {
  }

  /** An unrooted name is a component of the path whether the path has been rooted or not. */
  lemma NameInSeen(name: string, path: string, seen: string)
    requires name != "" && seen in {path, RootedPath(path)}
    ensures name in Split(ToSlash(seen), '/') <==> name in RootedParts(path)
  {
    if !IsRooted(path) {
      ToSlashConcat("/", path);
      SlashFree("/");
      SplitSlash(ToSlash(path));
      var parts := RootedParts(path);
      assert parts == [""] + Split(ToSlash(path), '/');
    }
  }

  /** Line k of such a list, for a name that may stand anywhere in the path. */
  lemma AnywhereLineAt(lines: seq<Line>, k: nat, name: string, path: string)
    requires k < |lines| && FileName(name) && lines[k] == Line(true, name) && '\n' !in path
    ensures MatchesAt(lines, k, path) <==> name in RootedParts(path)
  {
    var seen := PathSeen(lines[..k + 1], path);
    FileNameComponents(false, name);
    assert lines[k] == Line(true, Render(false, [name]));
    AnywhereLineMatches(name, seen, lines[k]);
    NameInSeen(name, path, seen);
  }

  /** And for a name at the root. */
  lemma RootedLineAt(lines: seq<Line>, k: nat, name: string, path: string)
    requires k < |lines| && FileName(name) && lines[k] == Line(true, "/" + name) && '\n' !in path
    ensures MatchesAt(lines, k, path) <==> RootedParts(path)[1] == name
  {
    var seen := RootedPath(path);
    assert lines[k] in lines[..k + 1] && IsRooted(lines[k].pattern);
    assert PathSeen(lines[..k + 1], path) == seen;
    FileNameComponents(true, name);
    assert lines[k] == Line(true, Render(true, [name]));
    RootedLineMatches(name, seen, lines[k]);
    RootedPartsShape(path);
    FirstComponent(ToSlash(seen)[1..], name);
    assert RootedParts(path)[1] == RootedParts(path)[1..][0];
  }

  /** Without `!` lines, a path is ignored exactly when some line matches it. */
  lemma ExcludedByALine(lines: seq<Line>, path: string)
    requires forall line :: line in lines ==> line.exclude
    ensures LineVerdict(lines, path) <==> exists k :: 0 <= k < |lines| && MatchesAt(lines, k, path)
  {
    if LineVerdict(lines, path) {
      var k := VerdictHasMatch(lines, path);
    }
    if exists k :: 0 <= k < |lines| && MatchesAt(lines, k, path) {
      var k :| 0 <= k < |lines| && MatchesAt(lines, k, path);
      VerdictFromMatch(lines, path, k);
    }
  }

  lemma FileLineAt(raws: seq<string>, k: nat, file: string, path: string)
    requires (forall raw :: raw in raws ==> IsFileRaw(raw)) && '\n' !in path && k < |raws|
    requires if k == 1 then raws[k] == "/" + file else !IsRooted(raws[k])
    ensures |ParseLines(raws)| == |raws|
    ensures MatchesAt(ParseLines(raws), k, path)
            <==> if k == 1 then RootedParts(path)[1] == file else raws[k] in RootedParts(path)
  {
    FileRawsParse(raws);
    assert raws[k] in raws;
    if k == 1 {
      assert raws[k][1..] == file && raws[k][0] == '/';
      RootedLineAt(ParseLines(raws), k, file, path);
    } else {
      AnywhereLineAt(ParseLines(raws), k, raws[k], path);
    }
  }

  /** Line k of such a list matches the path. */
  predicate FileHit(raws: seq<string>, k: nat, file: string, parts: seq<string>)
    requires k < |raws| && |parts| > 1
  {
    if k == 1 then parts[1] == file else raws[k] in parts
  }

  lemma FileHits(raws: seq<string>, file: string, path: string)
    requires (forall raw :: raw in raws ==> IsFileRaw(raw)) && '\n' !in path
    requires |raws| > 1 && raws[1] == "/" + file && forall k :: 0 <= k < |raws| && k != 1 ==> !IsRooted(raws[k])
    ensures |ParseLines(raws)| == |raws|
    ensures forall k :: 0 <= k < |raws| ==>
              (MatchesAt(ParseLines(raws), k, path) <==> FileHit(raws, k, file, RootedParts(path)))
    ensures forall line :: line in ParseLines(raws) ==> line.exclude
  {
    FileRawsParse(raws);
    forall k | 0 <= k < |raws|
      ensures MatchesAt(ParseLines(raws), k, path) <==> FileHit(raws, k, file, RootedParts(path))
    {
      FileLineAt(raws, k, file, path);
    }
  }

  lemma FileLinesVerdict(raws: seq<string>, file: string, path: string, lines: seq<Line>)
    requires (forall raw :: raw in raws ==> IsFileRaw(raw)) && '\n' !in path && lines == ParseLines(raws)
    requires |raws| > 1 && raws[1] == "/" + file && forall k :: 0 <= k < |raws| && k != 1 ==> !IsRooted(raws[k])
    ensures LineVerdict(lines, path) <==> exists k :: 0 <= k < |raws| && FileHit(raws, k, file, RootedParts(path))
  {
    FileHits(raws, file, path);
    ExcludedByALine(lines, path);
    if exists k :: 0 <= k < |raws| && FileHit(raws, k, file, RootedParts(path)) {
      var k :| 0 <= k < |raws| && FileHit(raws, k, file, RootedParts(path));
      assert MatchesAt(lines, k, path);
    }
  }

  const IGNORED_EVERYWHERE: seq<string> := [".cfignore", ".gitignore", ".git", ".hg", ".svn", "_darcs", ".DS_Store"]

  lemma DefaultOrder(k: nat)
    requires k < 8
    ensures k == 1 ==> DEFAULT_IGNORE_LINES[k] == "/" + "manifest.yml"
    ensures k != 1 ==> DEFAULT_IGNORE_LINES[k] == IGNORED_EVERYWHERE[if k == 0 then 0 else k - 1]
    ensures k != 1 ==> !IsRooted(DEFAULT_IGNORE_LINES[k])
  {
  }

  lemma DefaultHits(raws: seq<string>, names: seq<string>, file: string, parts: seq<string>)
    requires |raws| == 8 && |names| == 7 && |parts| > 1
    requires forall k :: 0 <= k < 8 && k != 1 ==> raws[k] == names[if k == 0 then 0 else k - 1]
    ensures (exists k :: 0 <= k < |raws| && FileHit(raws, k, file, parts))
            <==> parts[1] == file || exists name :: name in names && name in parts
  {
    if parts[1] == file {
      assert FileHit(raws, 1, file, parts);
    }
    if exists name :: name in names && name in parts {
      var i :| 0 <= i < |names| && names[i] in parts;
      assert FileHit(raws, if i == 0 then 0 else i + 1, file, parts);
    }
  }

  /**
   What a new object ignores, among the paths without newlines: the version control and ignore files anywhere in the
   tree with all that lies below them, and the manifest at its root.
   */
  lemma DefaultVerdict(path: string)
    requires '\n' !in path
    ensures LineVerdict(ParseLines(DEFAULT_IGNORE_LINES), path)
            <==> RootedParts(path)[1] == "manifest.yml"
                 || exists name :: name in IGNORED_EVERYWHERE && name in RootedParts(path)
  {
    forall k | 0 <= k < 8
      ensures k == 1 ==> DEFAULT_IGNORE_LINES[k] == "/" + "manifest.yml"
      ensures k != 1 ==> DEFAULT_IGNORE_LINES[k] == IGNORED_EVERYWHERE[if k == 0 then 0 else k - 1]
      ensures k != 1 ==> !IsRooted(DEFAULT_IGNORE_LINES[k])
    {
      DefaultOrder(k);
    }
    DefaultsAreFiles();
    DefaultHits(DEFAULT_IGNORE_LINES, IGNORED_EVERYWHERE, "manifest.yml", RootedParts(path));
    FileLinesVerdict(DEFAULT_IGNORE_LINES, "manifest.yml", path, ParseLines(DEFAULT_IGNORE_LINES));
  }

  lemma OneLineFile(raw: string)
    requires '\n' !in raw
    ensures AreLines([] + ["" + raw + ""]) && FileText([] + ["" + raw + ""]) == raw
  {
    assert "" + raw + "" == raw && [] + [raw] == [raw];
  }

  lemma NewObjectParses()
    ensures Parses(FileText([]))
  {
    FileLines([]);
    DefaultsCompile();
    assert LinesAfter(FileText([])) == ParseLines(DEFAULT_IGNORE_LINES);
  }

  /** So a file with the line `!name` takes a default name back, with everything below it. */
  lemma NegatedNameKeeps(name: string, path: string)
    requires FileName(name) && '\n' !in path && name in RootedParts(path)
    ensures Parses("!" + name) && !LineVerdict(LinesAfter("!" + name), path)
  {
    var line := Line(true, name);
    FileNameComponents(false, name);
    FileNameEnds(name);
    PlainLineCompiles(line);
    NameInSeen(name, path, RootedPath(path));
    AnywhereLineMatches(name, RootedPath(path), line);
    OneLineFile("!" + name);
    NewObjectParses();
    NegatedLineKeeps([], "", name, "", LineGlobs(line), path);
  }
}
