/** The globs of one ignore line: their texts, and when they all compile. */
module IgnoreFamily {
  import opened Text
  import opened Regex
  import opened Paths
  import opened Globs
  import opened GlobReading
  import opened IgnoreSpec

  // ---------- the texts of a family ----------

  /** Components of `**` joined with a relative cleaned path: a leading `..` swallows the `**`. */
  function DeepComponents(components: seq<string>): seq<string> {
    if components != [] && components[0] == ".." then components[1..] else ["**"] + components
  }

  /** A pattern, its children, and its deeper descendants. */
  function Base(rooted: bool, components: seq<string>): seq<string> {
    [Render(rooted, components), Render(rooted, components + ["*"]), Render(rooted, components + ["**", "*"])]
  }

  function Family(rooted: bool, components: seq<string>): seq<string> {
    Base(rooted, components) + if rooted then [] else Base(false, DeepComponents(components))
  }

  lemma DeepIsNormal(components: seq<string>)
    requires Normal(false, components)
    ensures Normal(false, DeepComponents(components))
    ensures components != [] && components[0] != ".." ==> ".." !in components
  {
    if components != [] && components[0] != ".." {
      forall i | 0 <= i < |components| ensures components[i] != ".." {
      }
    }
  }

  /** Reducing after a leading `**`. */
  lemma ReduceAfterDouble(components: seq<string>)
    requires Normal(false, components)
    ensures Reduce(["**"], components, false) == DeepComponents(components)
  {
    DeepIsNormal(components);
    if components != [] && components[0] == ".." {
      assert ["**"][..0] == [];
      assert [] + components[1..] == components[1..];
      ReduceNormal([], components[1..], false);
    } else {
      ReduceNormal(["**"], components, false);
    }
  }

  lemma DeepReduces(components: seq<string>)
    requires Normal(false, components)
    ensures Reduce([], Split("**/" + Render(false, components), '/'), false) == DeepComponents(components)
  {
    var text := Render(false, components);
    assert "**/" + text == "**" + ['/'] + text;
    SplitConcat("**", '/', text);
    SplitWhole("**", '/');
    var parts := Split(text, '/');
    ReduceConcat([], ["**"], parts, false);
    assert Reduce([], ["**"], false) == ["**"] by { assert ["**"][1..] == []; }
    if components == [] {
      SplitWhole(".", '/');
      assert Reduce(["**"], ["."], false) == ["**"] by { assert ["."][1..] == []; }
    } else {
      SplitJoin(components, '/');
      ReduceAfterDouble(components);
    }
  }

  /** Cleaning `**`, a cleaned relative path and further components. */
  lemma CleanDeep(components: seq<string>, more: seq<string>)
    requires Normal(false, components) && more != []
    requires forall component :: component in more ==> '/' !in component
    ensures Clean("**/" + Render(false, components) + "/" + Join(more, '/'))
            == Render(false, Reduce(DeepComponents(components), more, false))
  {
    var text := "**/" + Render(false, components);
    DeepReduces(components);
    SplitConcat(text, '/', Join(more, '/'));
    SplitJoin(more, '/');
    ReduceConcat([], Split(text, '/'), more, false);
  }

  lemma StarComponents(rooted: bool, components: seq<string>)
    requires Normal(rooted, components)
    ensures Reduce(components, ["*"], rooted) == components + ["*"]
    ensures Reduce(components, ["**", "*"], rooted) == components + ["**", "*"]
  {
    ReduceNormal(components, ["*"], rooted);
    ReduceNormal(components, ["**", "*"], rooted);
  }

  lemma JoinTwo(a: string, b: string)
    ensures Join([a, b], '/') == a + "/" + b
  {
    assert [a, b][1..] == [b];
  }

  lemma JoinOnto(a: string, more: seq<string>)
    requires more != []
    ensures Join([a] + more, '/') == a + "/" + Join(more, '/')
  {
    JoinConcat([a], more, '/');
  }

  /** The texts that globsForPattern joins and cleans, component by component. */
  lemma FamilyTexts(rooted: bool, components: seq<string>)
    requires Normal(rooted, components)
    ensures GlobTexts(Render(rooted, components)) == Family(rooted, components)
  {
    var p := Render(rooted, components);
    RenderReduces(rooted, components);
    StarText(rooted, components, ["*"]);
    StarText(rooted, components, ["**", "*"]);
    assert [p] + ["*"] == [p, "*"] && [p] + ["**", "*"] == [p, "**", "*"];
    if !rooted {
      DeepBareText(components);
      DeepStarText(components, ["*"]);
      DeepStarText(components, ["**", "*"]);
      assert ["**", p] + ["*"] == ["**", p, "*"] && ["**", p] + ["**", "*"] == ["**", p, "**", "*"];
    }
  }

  lemma StarText(rooted: bool, components: seq<string>, stars: seq<string>)
    requires Normal(rooted, components) && stars in {["*"], ["**", "*"]}
    ensures JoinPaths([Render(rooted, components)] + stars) == Render(rooted, components + stars)
  {
    RenderReduces(rooted, components);
    JoinOnto(Render(rooted, components), stars);
    CleanAppend(rooted, components, stars);
    StarComponents(rooted, components);
  }

  lemma DeepBareText(components: seq<string>)
    requires Normal(false, components)
    ensures JoinPaths(["**", Render(false, components)]) == Render(false, DeepComponents(components))
  {
    JoinTwo("**", Render(false, components));
    assert "**" + "/" + Render(false, components) == "**/" + Render(false, components);
    DeepReduces(components);
  }

  lemma DeepStarText(components: seq<string>, stars: seq<string>)
    requires Normal(false, components) && stars in {["*"], ["**", "*"]}
    ensures JoinPaths(["**", Render(false, components)] + stars) == Render(false, DeepComponents(components) + stars)
  {
    var p := Render(false, components);
    JoinConcat(["**", p], stars, '/');
    JoinTwo("**", p);
    assert Join(["**", p] + stars, '/') == "**/" + p + "/" + Join(stars, '/');
    DeepIsNormal(components);
    CleanDeep(components, stars);
    StarComponents(false, DeepComponents(components));
  }

  /** What the star suffixes of a base are appended to. */
  function Head(rooted: bool, components: seq<string>): string {
    if components == [] then (if rooted then "/" else "") else Render(rooted, components) + "/"
  }

  lemma HeadText(rooted: bool, components: seq<string>, stars: seq<string>)
    requires stars != []
    ensures Render(rooted, components + stars) == Head(rooted, components) + Join(stars, '/')
  {
    if components == [] {
      assert components + stars == stars;
    } else {
      JoinConcat(components, stars, '/');
    }
  }

  lemma BaseText(rooted: bool, components: seq<string>)
    ensures Base(rooted, components) ==
            [Render(rooted, components), Head(rooted, components) + "*", Head(rooted, components) + "**/*"]
  {
    JoinTwo("**", "*");
    HeadText(rooted, components, ["*"]);
    HeadText(rooted, components, ["**", "*"]);
    assert "**" + "/" + "*" == "**/*";
  }

  lemma DeepText(components: seq<string>)
    requires components == [] || components[0] != ".."
    ensures Render(false, DeepComponents(components))
            == if components == [] then "**" else "**/" + Render(false, components)
    ensures Head(false, DeepComponents(components)) == "**/" + Head(false, components)
  {
    if components == [] {
      assert ["**"] + components == ["**"];
    } else {
      JoinConcat(["**"], components, '/');
    }
  }

  // ---------- which lines compile ----------

  /**
   Accepted once backslashes are slashes, and not opened by a backslash: the guard that keeps a line from
   panicking.
   */
  predicate SlashSafe(text: string) {
    Accepted(ToSlash(text)) && !StartsWith(text, '\\')
  }

  /** SlashSafe, and every counted repetition may stand where it stands. */
  predicate Safe(text: string) {
    SlashSafe(text) && CountsFit(text)
  }

  lemma ToSlashConcat(a: string, b: string)
    ensures ToSlash(a + b) == ToSlash(a) + ToSlash(b)
  {
  }

  lemma AcceptedConcat(u: string, v: string)
    requires !HasDoubleSlash(u) && !HasDoubleSlash(v)
    requires u != "" && v != "" && v[|v| - 1] != '/' && !(u[|u| - 1] == '/' && v[0] == '/')
    ensures Accepted(u + v)
  {
    forall i | 0 <= i < |u + v| - 1 ensures !((u + v)[i] == '/' && (u + v)[i + 1] == '/') {
      if i >= |u| {
        assert (u + v)[i] == v[i - |u|] && (u + v)[i + 1] == v[i - |u| + 1];
      }
    }
  }



  lemma SafeAppend(a: string, b: string)
    requires Safe(a) && a != "" && ToSlash(a) != "/"
    requires b in {"/*", "/**/*"}
    ensures Safe(a + b)
  {
    ToSlashConcat(a, b);
    SlashFree(b);
    AcceptedConcat(ToSlash(a), b);
    AppendCounts(a, b);
  }

  lemma SafePrepend(b: string)
    requires Safe(b) && b != "" && !StartsWith(b, '/')
    ensures Safe("**/" + b)
  {
    ToSlashConcat("**/", b);
    SlashFree("**/");
    var u := ToSlash(b);
    assert u != "/";
    AcceptedConcat("**/", u);
    PrependCounts("**/", b);
  }

  lemma RenderHead(rooted: bool, components: seq<string>)
    requires Normal(rooted, components)
    ensures Render(rooted, components) != "" && IsRooted(Render(rooted, components)) == rooted
    ensures rooted && components != [] ==> |Render(rooted, components)| > 1
  {
    RenderReduces(rooted, components);
    if components != [] {
      JoinHead(components);
    }
  }

  lemma SafeLiteral(text: string)
    requires text in {"*", "**/*", "/*", "/**/*", ".", "/"}
    ensures Safe(text) && !HasCount(text) && ToSlash(text) == text
  {
    SlashFree(text);
    forall i | 0 <= i < |text| ensures ReadCount(text[i..]).None? {
      NoBraceNoCount(text, i);
    }
  }

  lemma SafeSuffixes(t: string)
    requires Safe(t) && t != "" && ToSlash(t) != "/"
    ensures Safe(t + "/" + "*") && Safe(t + "/" + "**/*")
  {
    SafeAppend(t, "/*");
    SafeAppend(t, "/**/*");
    assert t + "/" + "*" == t + "/*" && t + "/" + "**/*" == t + "/**/*";
  }

  /** The star suffixes of a safe text are safe. */
  lemma BaseSafe(rooted: bool, components: seq<string>)
    requires Normal(rooted, components) && Safe(Render(rooted, components))
    ensures forall text :: text in Base(rooted, components) ==> Safe(text)
  {
    var t := Render(rooted, components);
    BaseText(rooted, components);
    RenderHead(rooted, components);
    var b1, b2 := Head(rooted, components) + "*", Head(rooted, components) + "**/*";
    if components == [] {
      assert b1 == if rooted then "/*" else "*";
      assert b2 == if rooted then "/**/*" else "**/*";
      SafeLiteral(b1);
      SafeLiteral(b2);
    } else {
      SafeSuffixes(t);
    }
  }

  lemma DeepSafe(components: seq<string>)
    requires Normal(false, components) && Safe(Render(false, components))
    ensures Safe(Render(false, DeepComponents(components)))
  {
    RenderHead(false, components);
    if components == [] || components[0] != ".." {
      DeepText(components);
      if components != [] {
        SafePrepend(Render(false, components));
      }
    } else if components[1..] != [] {
      var q := Join(components[1..], '/');
      JoinConcat([".."], components[1..], '/');
      assert [".."] + components[1..] == components;
      var p := Render(false, components);
      assert p == "../" + q;
      SafeTail(p, 3);
    }
  }

  lemma AcceptedTail(p: string, n: nat)
    requires SlashSafe(p) && 0 < n < |p| && p[n - 1] == '/'
    ensures SlashSafe(p[n..])
  {
    var q := p[n..];
    assert ToSlash(p)[n - 1] == '/' && ToSlash(p)[n] == ToSlash(q)[0];
    forall i | 0 <= i < |q| - 1 ensures !(ToSlash(q)[i] == '/' && ToSlash(q)[i + 1] == '/') {
      assert ToSlash(q)[i] == ToSlash(p)[n + i] && ToSlash(q)[i + 1] == ToSlash(p)[n + i + 1];
    }
    assert ToSlash(q)[|q| - 1] == ToSlash(p)[|p| - 1];
  }

  lemma SafeTail(p: string, n: nat)
    requires Safe(p) && 0 < n < |p| && p[n - 1] == '/' && '{' !in p[..n]
    ensures Safe(p[n..])
  {
    AcceptedTail(p, n);
    assert p == p[..n] + p[n..];
    PrependCounts(p[..n], p[n..]);
  }

  lemma FamilySafe(rooted: bool, components: seq<string>)
    requires Normal(rooted, components) && Safe(Render(rooted, components))
    ensures forall text :: text in Family(rooted, components) ==> Safe(text)
  {
    BaseSafe(rooted, components);
    if !rooted {
      DeepIsNormal(components);
      DeepSafe(components);
      BaseSafe(false, DeepComponents(components));
    }
  }

  lemma CompileAllOk(texts: seq<string>)
    ensures CompileAll(texts).Ok? <==> forall text :: text in texts ==> Compile(text).Compiled?
    ensures CompileAll(texts).Ok? ==>
              forall glob :: glob in CompileAll(texts).value
                             <==> exists text :: text in texts && glob == Compile(text).glob
  {
    CollectOk(MustCompile, texts);
    forall text ensures MustCompile(text).Ok? <==> Compile(text).Compiled? {
    }
    if CompileAll(texts).Ok? {
      forall glob
        ensures glob in CompileAll(texts).value <==> exists text :: text in texts && glob == Compile(text).glob
      {
        if glob in CompileAll(texts).value {
          var text :| text in texts && glob in MustCompile(text).value;
          assert glob == Compile(text).glob;
        }
        if text :| text in texts && glob == Compile(text).glob {
          assert glob in MustCompile(text).value;
        }
      }
    }
  }

  lemma CompiledIsAccepted(text: string)
    requires Compile(text).Compiled?
    ensures Accepted(ToSlash(text)) && Compile(text).glob.pattern == ToSlash(text)
  {
  }

  lemma SlashThenBackslash(a: string, q: string)
    requires a != ""
    ensures StartsWith(q, '\\') ==> !Accepted(ToSlash(a + "/" + q))
  {
    var text := a + "/" + q;
    if StartsWith(q, '\\') {
      assert ToSlash(text)[|a|] == '/' && ToSlash(text)[|a| + 1] == '/';
    }
  }

  /** The pattern itself is one of the texts of its line, and for a relative pattern so is the pattern below `**`. */
  lemma TextsOfLine(rooted: bool, components: seq<string>)
    requires Normal(rooted, components)
    ensures Render(rooted, components) in GlobTexts(Render(rooted, components))
    ensures StartsWith(Render(rooted, components), '\\') ==>
              "**/" + Render(rooted, components) in GlobTexts(Render(rooted, components))
  {
    var p := Render(rooted, components);
    FamilyTexts(rooted, components);
    assert GlobTexts(p)[0] == p;
    RenderHead(rooted, components);
    if StartsWith(p, '\\') {
      DeepText(components);
      assert GlobTexts(p)[3] == "**/" + p;
    }
  }

  lemma CompiledIsSafeText(text: string)
    requires Compile(text).Compiled? && !StartsWith(text, '\\')
    ensures Safe(text)
  {
    CompiledForm(text);
  }

  lemma LineTextsCompile(texts: seq<string>, text: string)
    requires CompileAll(texts).Ok? && text in texts
    ensures Compile(text).Compiled?
  {
    CompileAllOk(texts);
  }

  /** Below `**` a pattern that begins with a backslash has an empty component. */
  lemma BackslashFails(p: string, deep: string)
    requires StartsWith(p, '\\') && deep == "**/" + p
    ensures !Compile(deep).Compiled?
  {
    assert deep == "**" + "/" + p;
    SlashThenBackslash("**", p);
  }

  /** A line whose globs all compile is safe. */
  lemma CompiledIsSafe(rooted: bool, components: seq<string>)
    requires Normal(rooted, components)
    requires CompileAll(GlobTexts(Render(rooted, components))).Ok?
    ensures Safe(Render(rooted, components))
  {
    var p := Render(rooted, components);
    var deep := "**/" + p;
    TextsOfLine(rooted, components);
    LineTextsCompile(GlobTexts(p), p);
    if StartsWith(p, '\\') {
      BackslashFails(p, deep);
      LineTextsCompile(GlobTexts(p), deep);
    } else {
      CompiledIsSafeText(p);
    }
  }

  /** Exactly when a cleaned pattern parses without a panic. */
  lemma ParsesExactlyWhenSafe(path: string)
    ensures CompileAll(GlobTexts(Clean(path))).Ok? <==> Safe(Clean(path))
  {
    var rooted, components := CleanShape(path);
    if Safe(Clean(path)) {
      FamilyTexts(rooted, components);
      FamilySafe(rooted, components);
      forall text | text in GlobTexts(Clean(path)) ensures Compile(text).Compiled? {
        CompiledForm(text);
        CountsSlash(text);
      }
      CompileAllOk(GlobTexts(Clean(path)));
    } else if CompileAll(GlobTexts(Clean(path))).Ok? {
      CompiledIsSafe(rooted, components);
    }
  }

  /** Every cleaned path is the rendering of normal components. */
  lemma CleanShape(path: string) returns (rooted: bool, components: seq<string>)
    ensures Normal(rooted, components) && Clean(path) == Render(rooted, components)
    ensures rooted == IsRooted(Clean(path))
  {
    if path == "" {
      rooted, components := false, [];
    } else {
      CleanIsNormal(path);
      rooted, components := IsRooted(path), Components(path);
      RenderHead(rooted, components);
    }
  }

  // ---------- all globs of a line are rooted alike ----------

  lemma BaseRooted(rooted: bool, components: seq<string>)
    requires Normal(rooted, components) && !StartsWith(Render(rooted, components), '\\')
    ensures forall text :: text in Base(rooted, components) ==> IsRooted(ToSlash(text)) == rooted
  {
    var t := Render(rooted, components);
    BaseText(rooted, components);
    RenderHead(rooted, components);
    forall text | text in Base(rooted, components) ensures IsRooted(ToSlash(text)) == rooted {
      if components != [] {
        assert text[0] == t[0];
      }
    }
  }

  lemma DeepHead(components: seq<string>)
    requires Normal(false, components) && Safe(Render(false, components))
    ensures !StartsWith(Render(false, DeepComponents(components)), '\\')
  {
    if components == [] || components[0] != ".." {
      DeepText(components);
    } else if components[1..] != [] {
      var p, q := Render(false, components), Join(components[1..], '/');
      JoinConcat([".."], components[1..], '/');
      assert [".."] + components[1..] == components;
      assert p == "../" + q;
      SlashThenBackslash("..", q);
    }
  }

  /** The compiled globs of a line are rooted exactly when its pattern is. */
  lemma CompiledRooted(pattern: string)
    requires Clean(pattern) == pattern && CompileAll(GlobTexts(pattern)).Ok?
    ensures CompileAll(GlobTexts(pattern)).value != []
    ensures forall glob :: glob in CompileAll(GlobTexts(pattern)).value ==> IsRooted(glob.pattern) == IsRooted(pattern)
  {
    var rooted, components := CleanShape(pattern);
    var texts := GlobTexts(pattern);
    CompiledIsSafe(rooted, components);
    FamilyTexts(rooted, components);
    BaseRooted(rooted, components);
    if !rooted {
      DeepHead(components);
      DeepIsNormal(components);
      BaseRooted(false, DeepComponents(components));
    }
    CompileAllOk(texts);
    var globs := CompileAll(texts).value;
    assert texts[0] in texts && Compile(texts[0]).glob in globs;
    forall glob | glob in globs ensures IsRooted(glob.pattern) == rooted {
      var text :| text in texts && glob == Compile(text).glob;
      CompiledIsAccepted(text);
    }
  }

  // ---------- lines without backslash ----------

  lemma {:induction false} JoinAccepted(components: seq<string>)
    requires components != [] && forall component :: component in components ==> NormalComponent(component)
    ensures var s := Join(components, '/'); s != "" && s[0] != '/' && !HasDoubleSlash(s) && s[|s| - 1] != '/'
    decreases components
  {
    var first := components[0];
    assert first in components;
    if |components| > 1 {
      JoinAccepted(components[1..]);
      AcceptedConcat(first + "/", Join(components[1..], '/'));
    }
  }

  lemma RenderAccepted(rooted: bool, components: seq<string>)
    requires Normal(rooted, components)
    ensures Accepted(Render(rooted, components))
  {
    if components != [] {
      JoinAccepted(components);
      if rooted {
        AcceptedConcat("/", Join(components, '/'));
      }
    }
  }

  lemma {:induction false} ReduceMembers(kept: seq<string>, components: seq<string>, rooted: bool, part: string)
    requires part in Reduce(kept, components, rooted)
    ensures part in kept || part in components
    decreases components
  {
    if components != [] {
      ReduceMembers(Push(kept, components[0], rooted), components[1..], rooted, part);
    }
  }

  lemma {:induction false} JoinChars(parts: seq<string>, c: char)
    requires c != '/'
    ensures c in Join(parts, '/') ==> exists part :: part in parts && c in part
  {
    if |parts| > 1 && c in Join(parts, '/') {
      if c in parts[0] {
        assert parts[0] in parts;
      } else {
        JoinChars(parts[1..], c);
      }
    } else if |parts| == 1 {
      assert parts[0] in parts;
    }
  }

  lemma {:induction false} SplitChars(s: string, c: char)
    requires c !in s
    ensures forall part :: part in Split(s, '/') ==> c !in part
  {
    if s != "" {
      SplitChars(s[1..], c);
    }
  }

  /** Cleaning introduces no character but dots and slashes. */
  lemma CleanChars(path: string, c: char)
    requires c !in path && c != '/' && c != '.'
    ensures c !in Clean(path)
  {
    if path != "" && c in Clean(path) {
      JoinChars(Components(path), c);
      var part :| part in Components(path) && c in part;
      ReduceMembers([], Split(path, '/'), IsRooted(path), part);
      SplitChars(path, c);
    }
  }

  /** A line without backslash and brace never panics. */
  lemma PlainLineParses(path: string)
    requires '\\' !in path && '{' !in path
    ensures Safe(Clean(path)) && CompileAll(GlobTexts(Clean(path))).Ok?
  {
    CleanChars(path, '\\');
    CleanChars(path, '{');
    var rooted, components := CleanShape(path);
    RenderAccepted(rooted, components);
    SlashFree(Clean(path));
    forall i | 0 <= i < |Clean(path)| ensures ReadCount(Clean(path)[i..]).None? {
      NoBraceNoCount(Clean(path), i);
    }
    ParsesExactlyWhenSafe(path);
  }
}
