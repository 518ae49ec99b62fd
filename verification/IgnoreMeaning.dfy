/** What an ignore line matches, in terms of the denotations of its globs. */
module IgnoreMeaning {
  import opened Text
  import opened Paths
  import opened Regex
  import opened Globs
  import opened GlobReading
  import opened GlobMeaning
  import opened IgnoreSpec
  import opened IgnoreFamily

  /** No alternation and no counted repetition: what the documentation says of a glob is what it does. */
  predicate Literal(text: string) {
    '|' !in text && !HasCount(text)
  }

  /** A line that compiles, outside alternation and counted repetition. */
  predicate Plain(line: Line) {
    Clean(line.pattern) == line.pattern && Safe(line.pattern) && Literal(line.pattern)
  }

  /** One of the three globs of a base denotes the subject. */
  ghost predicate BaseDenotes(bare: string, head: string, s: string) {
    Denotes(bare, s, false) || Denotes(head + "*", s, false) || Denotes(head + "**/*", s, false)
  }

  lemma LiteralAppend(text: string, stars: string)
    requires Literal(text) && stars in {"/", "/*", "/**/*"}
    ensures Literal(text + stars)
  {
    AppendCounts(text, stars);
  }

  lemma BaseIsLiteral(rooted: bool, components: seq<string>)
    requires Literal(Render(rooted, components))
    ensures forall text :: text in Base(rooted, components) ==> Literal(text)
  {
    var t, head := Render(rooted, components), Head(rooted, components);
    BaseText(rooted, components);
    if components == [] {
      assert head + "*" == if rooted then "/*" else "*";
      assert head + "**/*" == if rooted then "/**/*" else "**/*";
      SafeLiteral(head + "*");
      SafeLiteral(head + "**/*");
    } else {
      LiteralAppend(t, "/*");
      LiteralAppend(t, "/**/*");
      assert head + "*" == t + "/*" && head + "**/*" == t + "/**/*";
    }
  }

  lemma DeepIsLiteral(components: seq<string>)
    requires Literal(Render(false, components))
    ensures Literal(Render(false, DeepComponents(components)))
  {
    var p := Render(false, components);
    if components == [] {
      DeepText(components);
      NoBraceNoCounts("**");
    } else if components[0] != ".." {
      DeepText(components);
      PrependCounts("**/", p);
    } else if components[1..] == [] {
      NoBraceNoCounts(".");
    } else {
      var q := Join(components[1..], '/');
      JoinConcat([".."], components[1..], '/');
      assert [".."] + components[1..] == components;
      assert p == "../" + q;
      PrependCounts("../", q);
      assert forall i :: 0 <= i < |q| ==> q[i] == p[i + 3];
    }
  }

  lemma NoBraceNoCounts(text: string)
    requires '{' !in text
    ensures !HasCount(text)
  {
    forall i | 0 <= i < |text| ensures ReadCount(text[i..]).None? {
      NoBraceNoCount(text, i);
    }
  }

  /** The slash-normalised texts of a base. */
  function BareText(rooted: bool, components: seq<string>): string {
    ToSlash(Render(rooted, components))
  }

  function HeadSlash(rooted: bool, components: seq<string>): string {
    ToSlash(Head(rooted, components))
  }

  lemma BaseMatches(rooted: bool, components: seq<string>, path: string)
    requires Normal(rooted, components) && Safe(Render(rooted, components)) && Literal(Render(rooted, components))
    ensures (exists text :: text in Base(rooted, components)
                            && Compile(text).Compiled? && Match(Compile(text).glob, path))
            <==> BaseDenotes(BareText(rooted, components), HeadSlash(rooted, components), ToSlash(path))
  {
    var texts, head := Base(rooted, components), Head(rooted, components);
    BaseSafe(rooted, components);
    BaseIsLiteral(rooted, components);
    forall text | text in texts
      ensures Compile(text).Compiled?
      ensures Match(Compile(text).glob, path) <==> Denotes(ToSlash(text), ToSlash(path), false)
    {
      CompiledForm(text);
      CountsSlash(text);
      MatchMeaning(text, path);
    }
    BaseText(rooted, components);
    ToSlashConcat(head, "*");
    ToSlashConcat(head, "**/*");
    SlashFree("*");
    SlashFree("**/*");
    assert texts[0] in texts && texts[1] in texts && texts[2] in texts;
  }

  /** A plain line matches what its base, or for a relative pattern its deep base, denotes. */
  lemma LineDenotes(line: Line, path: string) returns (rooted: bool, components: seq<string>)
    requires Plain(line)
    ensures Normal(rooted, components) && line.pattern == Render(rooted, components) && rooted == IsRooted(line.pattern)
    ensures LineMatches(line, path) <==>
            BaseDenotes(BareText(rooted, components), HeadSlash(rooted, components), ToSlash(path))
            || (!rooted && BaseDenotes(BareText(false, DeepComponents(components)),
                                       HeadSlash(false, DeepComponents(components)), ToSlash(path)))
  {
    rooted, components := CleanShape(line.pattern);
    var texts := GlobTexts(line.pattern);
    FamilyTexts(rooted, components);
    ParsesExactlyWhenSafe(line.pattern);
    CompileAllOk(texts);
    BaseMatches(rooted, components, path);
    if !rooted {
      DeepIsNormal(components);
      DeepSafe(components);
      DeepIsLiteral(components);
      BaseMatches(false, DeepComponents(components), path);
    }
    LineMatchesTexts(line, path);
  }

  lemma LineMatchesTexts(line: Line, path: string)
    requires CompileAll(GlobTexts(line.pattern)).Ok?
    ensures LineMatches(line, path) <==>
            exists text :: text in GlobTexts(line.pattern) && Compile(text).Compiled? && Match(Compile(text).glob, path)
  {
    CompileAllOk(GlobTexts(line.pattern));
  }

  /** How a base's head relates to its bare text. */
  lemma HeadShape(rooted: bool, components: seq<string>)
    requires Normal(rooted, components)
    ensures components == [] ==> BareText(rooted, components) == (if rooted then "/" else ".")
                                 && HeadSlash(rooted, components) == (if rooted then "/" else "")
    ensures components != [] ==> HeadSlash(rooted, components) == BareText(rooted, components) + "/"
    ensures BareText(rooted, components) != ""
  {
    RenderHead(rooted, components);
    SlashFree("/");
    SlashFree(".");
    SlashFree("");
    ToSlashConcat(Render(rooted, components), "/");
  }

  lemma StarThen(rest: string, s: string)
    requires !StartsWith(rest, '*')
    ensures Denotes("*" + rest, s, false)
            <==> exists k :: 0 <= k <= |s| && '/' !in s[..k] && Denotes(rest, s[k..], false)
  {
    assert ("*" + rest)[1..] == rest;
  }

  lemma DoubleThen(rest: string, s: string)
    ensures Denotes("**" + rest, s, false)
            <==> exists k :: 0 <= k <= |s| && '\n' !in s[..k] && Denotes(rest, s[k..], false)
  {
    assert ("**" + rest)[2..] == rest;
  }

  lemma SlashThen(rest: string, s: string)
    ensures Denotes("/" + rest, s, false) <==> s != "" && s[0] == '/' && Denotes(rest, s[1..], false)
  {
    assert ("/" + rest)[1..] == rest;
  }

  lemma StarDenotes(s: string)
    ensures Denotes("*", s, false) <==> '/' !in s
  {
    StarThen("", s);
    assert "*" + "" == "*";
    if Denotes("*", s, false) {
      var k :| 0 <= k <= |s| && '/' !in s[..k] && Denotes("", s[k..], false);
      assert s[..k] == s;
    }
    assert s[..|s|] == s && Denotes("", s[|s|..], false);
  }

  /** A slash and, before it, no newline; after it, no slash. */
  predicate EndsDeep(s: string) {
    LastIndex(s, '/') >= 0 && '\n' !in s[..LastIndex(s, '/')]
  }

  lemma SlashStarDenotes(s: string)
    ensures Denotes("/*", s, false) <==> s != "" && s[0] == '/' && LastIndex(s, '/') == 0
  {
    SlashThen("*", s);
    assert "/" + "*" == "/*";
    if s != "" {
      StarDenotes(s[1..]);
      assert forall i :: 1 <= i < |s| ==> s[i] == s[1..][i - 1];
    }
  }

  /** `**`, a slash and a run: no newline before the last slash. */
  lemma DeepTailDenotes(s: string)
    ensures Denotes("**/*", s, false) <==> EndsDeep(s)
  {
    DoubleThen("/*", s);
    assert "**" + "/*" == "**/*";
    forall k | 0 <= k <= |s| ensures Denotes("/*", s[k..], false) <==> k == LastIndex(s, '/') {
      SlashStarDenotes(s[k..]);
      SuffixLastIndex(s, k);
    }
  }

  lemma SuffixLastIndex(s: string, k: nat)
    requires k <= |s|
    ensures k < |s| && s[k] == '/' && LastIndex(s[k..], '/') == 0 <==> k == LastIndex(s, '/')
  {
    assert forall i :: k <= i < |s| ==> s[i] == s[k..][i - k];
  }
}
