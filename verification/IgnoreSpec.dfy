/** cf_ignore.go read as a specification: lines, their globs, and the verdict on a path. */
module IgnoreSpec {
  import opened Text
  import opened Paths
  import opened Globs

  datatype IgnorePattern = IgnorePattern(exclude: bool, glob: Glob)

  /** A non-blank line of an ignore file: its verdict and its cleaned pattern. */
  datatype Line = Line(exclude: bool, pattern: string)

  /** A computation that may panic in MustCompileGlob. */
  datatype Result<+T> = Ok(value: T) | Panic(why: Compilation) {
    predicate IsFailure() {
      Panic?
    }

    function PropagateFailure<U>(): Result<U>
      requires Panic?
    {
      Panic(why)
    }

    function Extract(): T
      requires Ok?
    {
      value
    }
  }

  const DEFAULT_IGNORE_LINES: seq<string> := [
    ".cfignore", "/manifest.yml", ".gitignore", ".git", ".hg", ".svn", "_darcs", ".DS_Store"
  ]

  // ---------- lines ----------

  /** unicode.IsSpace */
  predicate IsSpace(c: char) {
    '\t' <= c <= '\r' || c in " \U{85}\U{A0}\U{1680}\U{2028}\U{2029}\U{202F}\U{205F}\U{3000}"
        || '\U{2000}' <= c <= '\U{200A}'
  }

  /** strings.TrimSpace */
  function TrimSpace(s: string): string {
    if s == "" then ""
    else if IsSpace(s[0]) then TrimSpace(s[1..])
    else if IsSpace(s[|s| - 1]) then TrimSpace(s[..|s| - 1])
    else s
  }

  /** The lines that a list of raw texts stands for: blank ones vanish, `!` flips the verdict. */
  function ParseLines(raws: seq<string>): seq<Line> {
    if raws == [] then []
    else ParseLines(raws[..|raws| - 1]) + ParseLine(raws[|raws| - 1])
  }

  function ParseLine(raw: string): seq<Line> {
    var line := TrimSpace(raw);
    if line == "" then []
    else if HasPrefix(line, "!") then [Line(false, Clean(line[1..]))]
    else [Line(true, Clean(line))]
  }

  // ---------- globs of a line ----------

  /** A pattern with its children and its deeper descendants. */
  function HereTexts(pattern: string): seq<string> {
    [pattern, JoinPaths([pattern, "*"]), JoinPaths([pattern, "**", "*"])]
  }

  /** The same below any directory. */
  function AnywhereTexts(pattern: string): seq<string> {
    [JoinPaths(["**", pattern]), JoinPaths(["**", pattern, "*"]), JoinPaths(["**", pattern, "**", "*"])]
  }

  /** The glob texts of a cleaned pattern. */
  function GlobTexts(pattern: string): seq<string> {
    if IsRooted(pattern) then HereTexts(pattern) else HereTexts(pattern) + AnywhereTexts(pattern)
  }

  /** MustCompileGlob */
  function MustCompile(pat: string): Result<seq<Glob>> {
    match Compile(pat)
    case Compiled(glob) => Ok([glob])
    case failure => Panic(failure)
  }

  /** Appends what f gives for each element in order; the first panic is the outcome. */
  function CollectAll<A, B>(f: A -> Result<seq<B>>, xs: seq<A>): Result<seq<B>> {
    if xs == [] then Ok([])
    else
      var front :- CollectAll(f, xs[..|xs| - 1]);
      var last :- f(xs[|xs| - 1]);
      Ok(front + last)
  }

  lemma CollectSnoc<A, B>(f: A -> Result<seq<B>>, xs: seq<A>, x: A)
    ensures CollectAll(f, xs + [x]) == (var front :- CollectAll(f, xs); var last :- f(x); Ok(front + last))
  {
    assert (xs + [x])[..|xs|] == xs;
  }

  lemma {:induction false} CollectConcat<A, B>(f: A -> Result<seq<B>>, a: seq<A>, b: seq<A>)
    ensures CollectAll(f, a + b) == (var x :- CollectAll(f, a); var y :- CollectAll(f, b); Ok(x + y))
    decreases b
  {
    if b == [] {
      assert a + b == a;
      assert CollectAll(f, b) == Ok([]);
      if CollectAll(f, a).Ok? {
        assert CollectAll(f, a).value + [] == CollectAll(f, a).value;
      }
    } else {
      var front, last := b[..|b| - 1], b[|b| - 1];
      assert a + b == a + front + [last] && b == front + [last];
      CollectConcat(f, a, front);
      CollectSnoc(f, a + front, last);
      CollectSnoc(f, front, last);
      if CollectAll(f, a).Ok? && CollectAll(f, front).Ok? && f(last).Ok? {
        var x, y, z := CollectAll(f, a).value, CollectAll(f, front).value, f(last).value;
        assert x + (y + z) == x + y + z;
      }
    }
  }

  lemma {:induction false} CollectOk<A, B>(f: A -> Result<seq<B>>, xs: seq<A>)
    ensures CollectAll(f, xs).Ok? <==> forall x :: x in xs ==> f(x).Ok?
    ensures CollectAll(f, xs).Ok? ==>
              forall y :: y in CollectAll(f, xs).value <==> exists x :: x in xs && y in f(x).value
  {
    if xs != [] {
      var front, last := xs[..|xs| - 1], xs[|xs| - 1];
      assert xs == front + [last];
      CollectOk(f, front);
    }
  }

  /** All texts compiled in order; the first failure panics. */
  function CompileAll(texts: seq<string>): Result<seq<Glob>> {
    CollectAll(MustCompile, texts)
  }

  function Tagged(exclude: bool, globs: seq<Glob>): (patterns: seq<IgnorePattern>)
    ensures |patterns| == |globs|
    ensures forall i :: 0 <= i < |globs| ==> patterns[i] == IgnorePattern(exclude, globs[i])
  {
    seq(|globs|, i requires 0 <= i < |globs| => IgnorePattern(exclude, globs[i]))
  }

  function LinePatterns(line: Line): Result<seq<IgnorePattern>> {
    var globs :- CompileAll(GlobTexts(line.pattern));
    Ok(Tagged(line.exclude, globs))
  }

  /** The pattern list that a list of lines leaves. */
  function Patterns(lines: seq<Line>): Result<seq<IgnorePattern>> {
    CollectAll(LinePatterns, lines)
  }

  // ---------- the line-level specification ----------

  function LineGlobs(line: Line): seq<Glob> {
    match CompileAll(GlobTexts(line.pattern))
    case Ok(globs) => globs
    case Panic(_) => []
  }

  predicate AnyMatch(globs: seq<Glob>, path: string) {
    exists glob :: glob in globs && Match(glob, path)
  }

  predicate LineMatches(line: Line, path: string) {
    AnyMatch(LineGlobs(line), path)
  }

  /** The path that the last of these lines is compared with: rooted once some line so far is rooted. */
  function PathSeen(lines: seq<Line>, path: string): string {
    if !IsRooted(path) && exists line :: line in lines && IsRooted(line.pattern) then "/" + path else path
  }

  /** The verdict of the last line that matches the path as that line sees it; false when none does. */
  function LineVerdict(lines: seq<Line>, path: string): bool {
    if lines == [] then false
    else
      var last := lines[|lines| - 1];
      if LineMatches(last, PathSeen(lines, path)) then last.exclude
      else LineVerdict(lines[..|lines| - 1], path)
  }

  // ---------- the loop of ShouldIgnore, pattern by pattern ----------

  function Rooted(glob: Glob, path: string): string {
    if IsRooted(glob.pattern) && !IsRooted(path) then "/" + path else path
  }

  /** What one pattern does to the result and the path. */
  function ScanStep(state: (bool, string), pattern: IgnorePattern): (bool, string) {
    var seen := Rooted(pattern.glob, state.1);
    (if Match(pattern.glob, seen) then pattern.exclude else state.0, seen)
  }

  /** Result and rewritten path after a list of patterns. */
  function Scan(patterns: seq<IgnorePattern>, path: string): (bool, string) {
    if patterns == [] then (false, path)
    else ScanStep(Scan(patterns[..|patterns| - 1], path), patterns[|patterns| - 1])
  }

  lemma ScanSnoc(patterns: seq<IgnorePattern>, last: IgnorePattern, path: string)
    ensures Scan(patterns + [last], path) == ScanStep(Scan(patterns, path), last)
  {
    assert (patterns + [last])[..|patterns|] == patterns;
  }

  lemma AnyMatchSnoc(globs: seq<Glob>, last: Glob, path: string)
    ensures AnyMatch(globs + [last], path) <==> AnyMatch(globs, path) || Match(last, path)
  {
    if AnyMatch(globs, path) {
      var glob :| glob in globs && Match(glob, path);
      assert glob in globs + [last];
    }
    assert last in globs + [last];
  }

  /** What a line does to the scan: it may root the path and, if it matches, sets the result. */
  function LineStep(state: (bool, string), exclude: bool, globs: seq<Glob>, rooted: bool): (bool, string) {
    var seen := if rooted && !IsRooted(state.1) then "/" + state.1 else state.1;
    (if AnyMatch(globs, seen) then exclude else state.0, seen)
  }

  lemma LineStepSnoc(state: (bool, string), exclude: bool, globs: seq<Glob>, last: Glob, rooted: bool)
    requires IsRooted(last.pattern) == rooted && globs != []
    ensures LineStep(state, exclude, globs + [last], rooted)
            == ScanStep(LineStep(state, exclude, globs, rooted), IgnorePattern(exclude, last))
  {
    var seen := if rooted && !IsRooted(state.1) then "/" + state.1 else state.1;
    AnyMatchSnoc(globs, last, seen);
  }

  /** Scanning the globs of one line, all rooted alike, is one line-level step. */
  lemma {:induction false} ScanLine(patterns: seq<IgnorePattern>, exclude: bool, globs: seq<Glob>, rooted: bool,
                                    path: string)
    requires globs != [] && forall glob :: glob in globs ==> IsRooted(glob.pattern) == rooted
    ensures Scan(patterns + Tagged(exclude, globs), path) == LineStep(Scan(patterns, path), exclude, globs, rooted)
    decreases globs
  {
    var n := |globs| - 1;
    var front, last := globs[..n], globs[n];
    assert globs == front + [last] && last in globs;
    var tagged := patterns + Tagged(exclude, front);
    assert patterns + Tagged(exclude, globs) == tagged + [IgnorePattern(exclude, last)];
    ScanSnoc(tagged, IgnorePattern(exclude, last), path);
    if front == [] {
      assert tagged == patterns;
      AnyMatchSnoc([], last, Rooted(last, Scan(patterns, path).1));
      assert [] + [last] == globs;
    } else {
      ScanLine(patterns, exclude, front, rooted, path);
      LineStepSnoc(Scan(patterns, path), exclude, front, last, rooted);
    }
  }
}
