/** droplet_runner/command_factory/cf_ignore/cf_ignore.go: the matcher object and its methods. */
module CfIgnore {
  import opened Text
  import opened Paths
  import opened Globs
  import opened IgnoreSpec
  import opened IgnoreFamily

  /** What the reader handed to Parse yields. */
  datatype Reader = Bytes(text: string) | Broken

  datatype ParseOutcome = Parsed | ReadError | Panicked(why: Compilation)

  ghost predicate Cleaned(lines: seq<Line>) {
    forall line :: line in lines ==> Clean(line.pattern) == line.pattern
  }

  lemma ParseLineCleaned(raw: string)
    ensures Cleaned(ParseLine(raw))
  {
    var line := TrimSpace(raw);
    CleanIdempotent(line);
    if line != "" {
      CleanIdempotent(line[1..]);
    }
  }

  lemma {:induction false} ParseLinesCleaned(raws: seq<string>)
    ensures Cleaned(ParseLines(raws))
  {
    if raws != [] {
      ParseLinesCleaned(raws[..|raws| - 1]);
      ParseLineCleaned(raws[|raws| - 1]);
    }
  }

  // ---------- the pattern-by-pattern loop refines the line-level verdict ----------

  lemma PathSeenSnoc(lines: seq<Line>, last: Line, path: string)
    ensures PathSeen(lines + [last], path) ==
            (var before := PathSeen(lines, path);
             if IsRooted(last.pattern) && !IsRooted(before) then "/" + before else before)
  {
    var whole := lines + [last];
    assert last in whole;
    if exists line :: line in lines && IsRooted(line.pattern) {
      var line :| line in lines && IsRooted(line.pattern);
      assert line in whole;
    }
  }

  lemma LineVerdictSnoc(lines: seq<Line>, last: Line, path: string)
    ensures LineVerdict(lines + [last], path) ==
            if LineMatches(last, PathSeen(lines + [last], path)) then last.exclude else LineVerdict(lines, path)
  {
    assert (lines + [last])[..|lines|] == lines;
  }

  lemma ScanRefinesStep(patterns: seq<IgnorePattern>, lines: seq<Line>, last: Line, globs: seq<Glob>, path: string)
    requires Clean(last.pattern) == last.pattern && CompileAll(GlobTexts(last.pattern)) == Ok(globs)
    requires Scan(patterns, path) == (LineVerdict(lines, path), PathSeen(lines, path))
    ensures Scan(patterns + Tagged(last.exclude, globs), path)
            == (LineVerdict(lines + [last], path), PathSeen(lines + [last], path))
  {
    CompiledRooted(last.pattern);
    ScanLine(patterns, last.exclude, globs, IsRooted(last.pattern), path);
    PathSeenSnoc(lines, last, path);
    LineVerdictSnoc(lines, last, path);
    assert LineGlobs(last) == globs;
  }

  /** The loop of ShouldIgnore, with its rewritten path, computes the verdict of the last matching line. */
  lemma {:induction false} ScanRefinesLines(lines: seq<Line>, path: string)
    requires Cleaned(lines) && Patterns(lines).Ok?
    ensures Scan(Patterns(lines).value, path) == (LineVerdict(lines, path), PathSeen(lines, path))
  {
    if lines != [] {
      var front, last := lines[..|lines| - 1], lines[|lines| - 1];
      assert lines == front + [last];
      CollectSnoc(LinePatterns, front, last);
      ScanRefinesLines(front, path);
      ScanRefinesStep(Patterns(front).value, front, last, CompileAll(GlobTexts(last.pattern)).value, path);
    }
  }

  // ---------- appending lines ----------

  lemma {:induction false} ParseLinesConcat(a: seq<string>, b: seq<string>)
    ensures ParseLines(a + b) == ParseLines(a) + ParseLines(b)
    decreases b
  {
    if b == [] {
      assert a + b == a;
    } else {
      assert (a + b)[..|a + b| - 1] == a + b[..|b| - 1];
      ParseLinesConcat(a, b[..|b| - 1]);
    }
  }

  /** Parsing a text after another leaves the same lines as parsing both with a line break between. */
  lemma ParseTwiceIsParseJoined(a: string, b: string)
    ensures ParseLines(Split(a + "\n" + b, '\n')) == ParseLines(Split(a, '\n')) + ParseLines(Split(b, '\n'))
    ensures Patterns(ParseLines(Split(a + "\n" + b, '\n'))).Ok?
            <==> Patterns(ParseLines(Split(a, '\n'))).Ok? && Patterns(ParseLines(Split(b, '\n'))).Ok?
  {
    SplitConcat(a, '\n', b);
    ParseLinesConcat(Split(a, '\n'), Split(b, '\n'));
    CollectConcat(LinePatterns, ParseLines(Split(a, '\n')), ParseLines(Split(b, '\n')));
  }

  // ---------- the default lines ----------

  lemma PatternsOk(lines: seq<Line>)
    ensures Patterns(lines).Ok? <==> forall line :: line in lines ==> CompileAll(GlobTexts(line.pattern)).Ok?
  {
    CollectOk(LinePatterns, lines);
    forall line ensures LinePatterns(line).Ok? <==> CompileAll(GlobTexts(line.pattern)).Ok? {
    }
  }

  lemma {:induction false} PlainLinesCompile(raws: seq<string>)
    requires forall raw :: raw in raws ==> '\\' !in raw && '{' !in raw
    ensures Patterns(ParseLines(raws)).Ok?
  {
    if raws != [] {
      var front, raw := raws[..|raws| - 1], raws[|raws| - 1];
      PlainLinesCompile(front);
      var line := TrimSpace(raw);
      TrimChars(raw);
      PlainLineParses(line);
      if line != "" {
        PlainLineParses(line[1..]);
      }
      PatternsOk(ParseLines(front));
      PatternsOk(ParseLines(raws));
    }
  }

  lemma TrimChars(s: string)
    ensures forall c :: c in TrimSpace(s) ==> c in s
  {
  }

  /** A list of lines parses without a panic exactly when every pattern is safe. */
  lemma ParsesExactly(raws: seq<string>)
    ensures Patterns(ParseLines(raws)).Ok? <==> forall line :: line in ParseLines(raws) ==> Safe(line.pattern)
  {
    ParseLinesCleaned(raws);
    PatternsOk(ParseLines(raws));
    forall line | line in ParseLines(raws)
      ensures CompileAll(GlobTexts(line.pattern)).Ok? <==> Safe(line.pattern)
    {
      ParsesExactlyWhenSafe(line.pattern);
    }
  }


  /** A pattern that ends in a backslash makes the whole text panic: slash-normalised it ends in a slash. */
  lemma TrailingBackslashPanics(raws: seq<string>, line: Line)
    requires line in ParseLines(raws) && line.pattern != "" && line.pattern[|line.pattern| - 1] == '\\'
    ensures Patterns(ParseLines(raws)).Panic?
  {
    var text := ToSlash(line.pattern);
    assert text[|text| - 1] == '/';
    ParsesExactly(raws);
  }

  lemma DefaultsCompile()
    ensures Patterns(ParseLines(DEFAULT_IGNORE_LINES)).Ok?
  {
    PlainLinesCompile(DEFAULT_IGNORE_LINES);
  }

  // ---------- compiling a line ----------

  method MustCompileGlob(pat: string) returns (r: Result<Glob>)
    ensures MustCompile(pat) == (var glob :- r; Ok([glob]))
  {
    var compilation := CompileGlob(pat);
    match compilation
    case Compiled(glob) => r := Ok(glob);
    case failure => r := Panic(failure);
  }

  lemma CollectThree<A, B>(f: A -> Result<seq<B>>, a: A, b: A, c: A)
    ensures CollectAll(f, [a, b, c]) == (var x :- f(a); var y :- f(b); var z :- f(c); Ok(x + y + z))
  {
    assert [] + [a] == [a] && [a] + [b] == [a, b] && [a, b] + [c] == [a, b, c];
    CollectSnoc(f, [], a);
    CollectSnoc(f, [a], b);
    CollectSnoc(f, [a, b], c);
    if f(a).Ok? {
      assert [] + f(a).value == f(a).value;
    }
  }

  /** Three globs compiled and appended one after the other. */
  method ThreeGlobs(texts: seq<string>) returns (r: Result<seq<Glob>>)
    requires |texts| == 3
    ensures r == CompileAll(texts)
  {
    CollectThree(MustCompile, texts[0], texts[1], texts[2]);
    assert texts == [texts[0], texts[1], texts[2]];
    var globs: seq<Glob> := [];
    var first :- MustCompileGlob(texts[0]);
    globs := globs + [first];
    var second :- MustCompileGlob(texts[1]);
    globs := globs + [second];
    var third :- MustCompileGlob(texts[2]);
    globs := globs + [third];
    assert globs == [first] + [second] + [third];
    return Ok(globs);
  }

  lemma GlobTextsCompile(pattern: string, here: seq<string>, anywhere: seq<string>)
    requires here == HereTexts(pattern) && anywhere == AnywhereTexts(pattern)
    ensures IsRooted(pattern) ==> CompileAll(GlobTexts(pattern)) == CompileAll(here)
    ensures !IsRooted(pattern) ==>
              CompileAll(GlobTexts(pattern)) == (var x :- CompileAll(here); var y :- CompileAll(anywhere); Ok(x + y))
  {
    CollectConcat(MustCompile, here, anywhere);
  }

  /** globsForPattern: three globs, and three more for a pattern that is not rooted. */
  method GlobsForPattern(pattern: string) returns (r: Result<seq<Glob>>)
    ensures r == CompileAll(GlobTexts(pattern))
  {
    var here, anywhere := HereTexts(pattern), AnywhereTexts(pattern);
    GlobTextsCompile(pattern, here, anywhere);
    var globs :- ThreeGlobs(here);
    if !HasPrefix(pattern, "/") {
      var more :- ThreeGlobs(anywhere);
      globs := globs + more;
    }
    return Ok(globs);
  }

  lemma ParseLinesSnoc(raws: seq<string>, raw: string)
    ensures ParseLines(raws + [raw]) == ParseLines(raws) + ParseLine(raw)
  {
    assert (raws + [raw])[..|raws|] == raws;
  }

  lemma BlankLine(raws: seq<string>, raw: string)
    requires TrimSpace(raw) == ""
    ensures ParseLines(raws + [raw]) == ParseLines(raws)
  {
    ParseLinesSnoc(raws, raw);
    assert ParseLines(raws) + [] == ParseLines(raws);
  }

  lemma OneMoreLine(raws: seq<string>, raw: string, line: Line)
    requires ParseLine(raw) == [line]
    ensures Patterns(ParseLines(raws + [raw]))
            == (var x :- Patterns(ParseLines(raws)); var y :- LinePatterns(line); Ok(x + y))
  {
    ParseLinesSnoc(raws, raw);
    CollectSnoc(LinePatterns, ParseLines(raws), line);
  }

  lemma PanicStays(raws: seq<string>, n: nat)
    requires n <= |raws| && Patterns(ParseLines(raws[..n])).Panic?
    ensures Patterns(ParseLines(raws)) == Patterns(ParseLines(raws[..n]))
  {
    assert raws == raws[..n] + raws[n..];
    ParseLinesConcat(raws[..n], raws[n..]);
    CollectConcat(LinePatterns, ParseLines(raws[..n]), ParseLines(raws[n..]));
  }

  /** The inner loop of parsePatterns. */
  method AppendPatterns(patterns: seq<IgnorePattern>, exclude: bool, globs: seq<Glob>) returns (r: seq<IgnorePattern>)
    ensures r == patterns + Tagged(exclude, globs)
  {
    r := patterns;
    ghost var tagged := Tagged(exclude, globs);
    for j := 0 to |globs|
      invariant r == patterns + tagged[..j]
    {
      r := r + [IgnorePattern(exclude, globs[j])];
    }
    assert tagged[..|globs|] == tagged;
  }

  /** One line: trimmed, its verdict read off a leading `!`, its globs appended. */
  method AppendLine(patterns: seq<IgnorePattern>, raw: string, ghost raws: seq<string>)
    returns (r: Result<seq<IgnorePattern>>)
    requires Patterns(ParseLines(raws)) == Ok(patterns)
    ensures r == Patterns(ParseLines(raws + [raw]))
  {
    var line := TrimSpace(raw);
    if line == "" {
      BlankLine(raws, raw);
      return Ok(patterns);
    }
    var exclude := true;
    if HasPrefix(line, "!") {
      line := line[1..];
      exclude := false;
    }
    OneMoreLine(raws, raw, Line(exclude, Clean(line)));
    var globs :- GlobsForPattern(Clean(line));
    var appended := AppendPatterns(patterns, exclude, globs);
    r := Ok(appended);
  }

  /** parsePatterns: line by line, glob by glob. */
  method ParsePatterns(raws: seq<string>) returns (r: Result<seq<IgnorePattern>>)
    ensures r == Patterns(ParseLines(raws))
  {
    var patterns: seq<IgnorePattern> := [];
    for i := 0 to |raws|
      invariant Patterns(ParseLines(raws[..i])) == Ok(patterns)
    {
      assert raws[..i + 1] == raws[..i] + [raws[i]];
      var appended := AppendLine(patterns, raws[i], raws[..i]);
      if appended.Panic? {
        PanicStays(raws, i + 1);
        return appended;
      }
      patterns := appended.value;
    }
    assert raws[..|raws|] == raws;
    r := Ok(patterns);
  }

  // ---------- the loop of ShouldIgnore ----------

  /** One round of the loop of ShouldIgnore. */
  method ScanPattern(pattern: IgnorePattern, result: bool, path: string) returns (result': bool, path': string)
    ensures (result', path') == ScanStep((result, path), pattern)
  {
    result', path' := result, path;
    if HasPrefix(pattern.glob.pattern, "/") && !HasPrefix(path', "/") {
      path' := "/" + path';
    }
    if Match(pattern.glob, path') {
      result' := pattern.exclude;
    }
  }

  lemma ScanNext(patterns: seq<IgnorePattern>, i: nat, path: string)
    requires i < |patterns|
    ensures Scan(patterns[..i + 1], path) == ScanStep(Scan(patterns[..i], path), patterns[i])
  {
    assert patterns[..i + 1] == patterns[..i] + [patterns[i]];
    ScanSnoc(patterns[..i], patterns[i], path);
  }

  /** The loop, with result and path as its variables. */
  method ScanPatterns(patterns: seq<IgnorePattern>, path: string) returns (result: bool, seen: string)
    ensures (result, seen) == Scan(patterns, path)
  {
    result, seen := false, path;
    for i := 0 to |patterns|
      invariant (result, seen) == Scan(patterns[..i], path)
    {
      ScanNext(patterns, i, path);
      result, seen := ScanPattern(patterns[i], result, seen);
    }
    assert patterns[..|patterns|] == patterns;
  }

  // ---------- the object ----------

  /** The matcher: its one field is the pattern list; lines is what that list stands for. */
  class Matcher {
    var patterns: seq<IgnorePattern>
    ghost var lines: seq<Line>

    /** The patterns are those of the lines, which begin with the default ones. */
    ghost predicate Valid()
      reads this
    {
      && Cleaned(lines)
      && Patterns(lines) == Ok(patterns)
      && ParseLines(DEFAULT_IGNORE_LINES) <= lines
    }

    /** New */
    constructor ()
      ensures Valid() && lines == ParseLines(DEFAULT_IGNORE_LINES)
    {
      DefaultsCompile();
      ParseLinesCleaned(DEFAULT_IGNORE_LINES);
      var parsed := ParsePatterns(DEFAULT_IGNORE_LINES);
      patterns := parsed.value;
      lines := ParseLines(DEFAULT_IGNORE_LINES);
    }

    /** Parse appends the patterns of the text; a read error or a panic leaves the object as it was. */
    method Parse(ignored: Reader) returns (outcome: ParseOutcome)
      requires Valid()
      modifies this
      ensures Valid()
      ensures outcome.ReadError? <==> ignored.Broken?
      ensures ignored.Bytes? ==>
                (outcome.Parsed? <==> Patterns(ParseLines(Split(ignored.text, '\n'))).Ok?)
      ensures lines == old(lines) + (if outcome.Parsed? then ParseLines(Split(ignored.text, '\n')) else [])
      ensures !outcome.Parsed? ==> patterns == old(patterns)
    {
      if ignored.Broken? {
        return ReadError;
      }
      var raws := Split(ignored.text, '\n');
      var parsed := ParsePatterns(raws);
      if parsed.Panic? {
        return Panicked(parsed.why);
      }
      ParseLinesCleaned(raws);
      CollectConcat(LinePatterns, lines, ParseLines(raws));
      patterns := patterns + parsed.value;
      lines := lines + ParseLines(raws);
      outcome := Parsed;
    }

    /** ShouldIgnore: the last matching pattern decides; a rooted pattern roots the path for all later ones. */
    method ShouldIgnore(path: string) returns (result: bool)
      requires Valid()
      ensures result == LineVerdict(lines, path)
    {
      var seen;
      result, seen := ScanPatterns(patterns, path);
      ScanRefinesLines(lines, path);
    }
  }
}
