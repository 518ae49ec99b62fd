/** The ignored set is closed downwards in the tree, and exactly when it is. */
module IgnoreClosure {
  import opened Text
  import opened Paths
  import opened Regex
  import opened Globs
  import opened GlobReading
  import opened GlobShapes
  import opened GlobMeaning
  import opened IgnoreSpec
  import opened IgnoreFamily
  import opened IgnoreMeaning
  import opened IgnoreRooting
  import opened CfIgnore

  /** The last component. */
  function LastComponent(s: string): string {
    s[LastIndex(s, '/') + 1..]
  }

  /** No newline from the last component of the directory up to the last slash of the path below it. */
  predicate NewlineSafe(directory: string, below: string) {
    '\n' !in LastComponent(directory) && (forall i :: 0 <= i < LastIndex(below, '/') ==> below[i] != '\n')
  }

  lemma LastIndexIs(s: string, c: char, m: int)
    requires -1 <= m < |s| && (m >= 0 ==> s[m] == c) && forall i :: m < i < |s| ==> s[i] != c
    ensures LastIndex(s, c) == m
  {
  }

  lemma TailLastIndex(tail: string, below: string)
    ensures LastIndex(tail + "/" + below, '/') == |tail| + 1 + LastIndex(below, '/')
  {
    var s := tail + "/" + below;
    var n := LastIndex(below, '/');
    assert s[|tail|] == '/' && (n >= 0 ==> s[|tail| + 1 + n] == '/');
    forall i | |tail| + 1 + n < i < |s| ensures s[i] != '/' {
      assert s[i] == below[i - |tail| - 1];
    }
    LastIndexIs(s, '/', |tail| + 1 + n);
  }

  lemma DeepTailEnds(tail: string, below: string)
    requires forall i :: 0 <= i < LastIndex(below, '/') ==> below[i] != '\n'
    requires '\n' !in tail
    ensures EndsDeep(tail + "/" + below)
  {
    var s, n := tail + "/" + below, LastIndex(below, '/');
    TailLastIndex(tail, below);
    if n < 0 {
      assert s[..|tail|] == tail;
    } else {
      assert '\n' !in below[..n];
      assert s[..|tail| + 1 + n] == tail + ['/'] + below[..n];
    }
  }

  lemma NotInSuffix(s: string, k: nat, c: char, i: nat)
    requires k <= i < |s| && c !in s[k..]
    ensures s[i] != c
  {
    assert s[k..][i - k] == s[i];
  }

  /** A suffix without slash lies in the last component. */
  lemma SlashFreeSuffix(s: string, k: nat)
    requires k <= |s| && '/' !in s[k..]
    ensures '\n' !in LastComponent(s) ==> '\n' !in s[k..]
  {
    var m := LastIndex(s, '/');
    if m >= k {
      NotInSuffix(s, k, '/', m);
    } else if '\n' !in s[m + 1..] {
      forall i | k <= i < |s| ensures s[i] != '\n' {
        NotInSuffix(s, m + 1, '\n', i);
      }
    }
  }

  // ---------- matching a prefix ----------

  /** The items match the subject from i up to j exactly. */
  predicate Takes(items: seq<Item>, s: string, i: nat, j: nat)
    requires i <= |s| && j <= |s|
    decreases items
  {
    if items == [] then i == j
    else match items[0]
      case Begin => i == 0 && Takes(items[1..], s, i, j)
      case End => false
      case Bar => false
      case One(a) => i < |s| && AtomAllows(a, s[i]) && Takes(items[1..], s, i + 1, j)
      case Times(a, bounds) =>
        exists k :: i <= k <= |s| && InBounds(bounds, k - i) && AllowsRun(a, s, i, k) && Takes(items[1..], s, k, j)
  }

  lemma {:induction false} RunSplits(a: seq<Item>, b: seq<Item>, s: string, i: nat) returns (j: nat)
    requires i <= |s| && End !in a && MatchesFrom(a + b, s, i)
    ensures j <= |s| && Takes(a, s, i, j) && MatchesFrom(b, s, j)
    decreases a
  {
    if a == [] {
      assert a + b == b;
      j := i;
    } else {
      assert (a + b)[1..] == a[1..] + b && a[0] in a;
      match a[0]
      case One(_) => j := RunSplits(a[1..], b, s, i + 1);
      case Times(x, bounds) =>
        var k :| i <= k <= |s| && InBounds(bounds, k - i) && AllowsRun(x, s, i, k) && MatchesFrom(a[1..] + b, s, k);
        j := RunSplits(a[1..], b, s, k);
      case Begin => j := RunSplits(a[1..], b, s, i);
    }
  }

  lemma {:induction false} RunJoins(a: seq<Item>, b: seq<Item>, s: string, i: nat, j: nat)
    requires i <= |s| && j <= |s| && Takes(a, s, i, j) && MatchesFrom(b, s, j)
    ensures MatchesFrom(a + b, s, i)
    decreases a
  {
    if a == [] {
      assert a + b == b;
    } else {
      assert (a + b)[1..] == a[1..] + b;
      match a[0]
      case One(_) => RunJoins(a[1..], b, s, i + 1, j);
      case Times(x, bounds) =>
        var k :| i <= k <= |s| && InBounds(bounds, k - i) && AllowsRun(x, s, i, k) && Takes(a[1..], s, k, j);
        RunJoins(a[1..], b, s, k, j);
      case Begin => RunJoins(a[1..], b, s, i, j);
    }
  }

  /** Text behind a match does not disturb it. */
  lemma {:induction false} TakesStays(items: seq<Item>, s: string, more: string, i: nat, j: nat)
    requires i <= |s| && j <= |s| && Takes(items, s, i, j)
    ensures Takes(items, s + more, i, j)
    decreases items
  {
    if items != [] {
      match items[0]
      case One(_) => TakesStays(items[1..], s, more, i + 1, j);
      case Times(x, bounds) =>
        var k :| i <= k <= |s| && InBounds(bounds, k - i) && AllowsRun(x, s, i, k) && Takes(items[1..], s, k, j);
        TakesStays(items[1..], s, more, k, j);
        assert AllowsRun(x, s + more, i, k);
      case Begin => TakesStays(items[1..], s, more, i, j);
    }
  }

  // ---------- a pattern and its star suffixes ----------

  /** What the expressions of a pattern and of its descendants have in common. */
  function Core(pat: string): seq<Item> {
    Anchor(pat) + Items(pat[AnchorWidth(pat)..])
  }

  /**
   What globsForPattern appends to a pattern; below the root and the current directory the bare text is a
   tail too.
   */
  datatype Tail = Nothing | Slash | Period | Child | Deep | SlashChild | SlashDeep

  function TailText(tail: Tail): string {
    match tail
    case Nothing => ""
    case Slash => "/"
    case Period => "."
    case Child => "*"
    case Deep => "**/*"
    case SlashChild => "/*"
    case SlashDeep => "/**/*"
  }

  function TailItems(tail: Tail): seq<Item> {
    Items(TailText(tail)) + [End]
  }

  /** A star at the front would merge with a star before it. */
  predicate OpensStar(tail: Tail) {
    tail.Child? || tail.Deep?
  }

  lemma TailIsPlain(tail: Tail)
    ensures '|' !in TailText(tail) && !HasCount(TailText(tail))
    ensures TailText(tail) == "" || StopsCount(TailText(tail))
    ensures !OpensStar(tail) ==> !StartsWith(TailText(tail), '*')
    ensures ToSlash(TailText(tail)) == TailText(tail)
  {
    NoBraceNoCounts(TailText(tail));
    SlashFree(TailText(tail));
  }

  lemma TailHasNoBar(tail: Tail)
    ensures Bar !in TailItems(tail)
  {
    TailIsPlain(tail);
    NoBarItems(TailText(tail));
  }

  lemma Regroup(anchor: seq<Item>, front: seq<Item>, back: seq<Item>)
    ensures anchor + (front + back) + [End] == (anchor + front) + (back + [End])
  {
  }

  lemma SuffixedItems(pat: string, text: string)
    requires StopsCount(text) && (pat == "" || text[0] != '*')
    ensures AnchorWidth(pat + text) == AnchorWidth(pat) && Anchor(pat + text) == Anchor(pat)
    ensures Items((pat + text)[AnchorWidth(pat)..]) == Items(pat[AnchorWidth(pat)..]) + Items(text)
  {
    var w := AnchorWidth(pat);
    AnchorBefore(pat, text);
    assert (pat + text)[w..] == pat[w..] + text;
    ItemsBefore(pat[w..], text);
  }

  /** The expression of a pattern with a tail: the core, then the tail. */
  lemma CoreText(pat: string, tail: Tail)
    requires pat == "" || !OpensStar(tail)
    ensures Expression(pat + TailText(tail)) == Core(pat) + TailItems(tail)
  {
    var w, text := AnchorWidth(pat), TailText(tail);
    TailIsPlain(tail);
    if text == "" {
      assert pat + text == pat;
      Regroup(Anchor(pat), Items(pat[w..]), Items(text));
      assert Items(pat[w..]) + Items(text) == Items(pat[w..]);
    } else {
      SuffixedItems(pat, text);
      Regroup(Anchor(pat), Items(pat[w..]), Items(text));
    }
  }

  lemma {:induction false} NoEndItems(pat: string)
    ensures End !in Items(pat)
    decreases |pat|
  {
    if pat != "" {
      NoEndItems(pat[TokenWidth(pat)..]);
    }
  }

  lemma NoEndCore(pat: string)
    ensures End !in Core(pat)
  {
    NoEndItems(pat[AnchorWidth(pat)..]);
  }

  lemma SplitTailStep<T>(first: T, rest: seq<seq<T>>, tail: seq<T>, split: bool)
    requires rest != []
    ensures var n := |rest| - 1;
            var parts := if split then [[]] + rest else [[first] + rest[0]] + rest[1..];
            var longer := rest[..n] + [rest[n] + tail];
            (if split then [[]] + longer else [[first] + longer[0]] + longer[1..])
            == parts[..|parts| - 1] + [parts[|parts| - 1] + tail]
  {
    var n := |rest| - 1;
    if split {
      assert ([[]] + rest)[..n + 1] == [[]] + rest[..n];
    } else if n == 0 {
      assert [first] + (rest[0] + tail) == [first] + rest[0] + tail;
    } else {
      assert (rest[..n] + [rest[n] + tail])[1..] == rest[1..n] + [rest[n] + tail];
      assert ([[first] + rest[0]] + rest[1..])[..n] == [[first] + rest[0]] + rest[1..n];
    }
  }

  /** Splitting behind which no separator follows: only the last part grows. */
  lemma {:induction false} SplitTail<T>(a: seq<T>, tail: seq<T>, c: T)
    requires c !in tail
    ensures var parts := Split(a, c); var n := |parts| - 1;
            Split(a + tail, c) == parts[..n] + [parts[n] + tail]
    decreases |a|
  {
    if a == [] {
      assert a + tail == tail;
      SplitWhole(tail, c);
      assert [[]][..0] + [[] + tail] == [tail];
    } else {
      assert (a + tail)[1..] == a[1..] + tail;
      SplitTail(a[1..], tail, c);
      SplitTailStep(a[0], Split(a[1..], c), tail, a[0] == c);
    }
  }

  /** Some alternative but the last one matches. */
  predicate EarlierMatches(core: seq<Item>, s: string) {
    var parts := Split(core, Bar);
    exists part :: part in parts[..|parts| - 1] && AlternativeMatches(part, s)
  }

  function LastPart(core: seq<Item>): (part: seq<Item>)
    ensures part in Split(core, Bar)
  {
    var parts := Split(core, Bar);
    parts[|parts| - 1]
  }

  lemma MatchByParts(core: seq<Item>, tail: seq<Item>, s: string)
    requires Bar !in tail
    ensures MatchString(core + tail, s) <==> EarlierMatches(core, s) || AlternativeMatches(LastPart(core) + tail, s)
  {
    var parts := Split(core, Bar);
    var n := |parts| - 1;
    SplitTail(core, tail, Bar);
    var all := Split(core + tail, Bar);
    assert all == parts[..n] + [parts[n] + tail];
    assert forall part :: part in all <==> part in parts[..n] || part == parts[n] + tail;
  }

  lemma {:induction false} PartsKeepOut<T>(a: seq<T>, c: T, x: T)
    requires x !in a
    ensures forall part :: part in Split(a, c) ==> x !in part
  {
    if a != [] {
      PartsKeepOut(a[1..], c, x);
      assert a[0] in a;
    }
  }

  /** An alternative without end anchor matches whatever follows. */
  lemma AlternativeStays(part: seq<Item>, s: string, more: string)
    requires End !in part && AlternativeMatches(part, s)
    ensures AlternativeMatches(part, s + more)
  {
    var i :| 0 <= i <= |s| && MatchesFrom(part, s, i);
    assert part + [] == part;
    var j := RunSplits(part, [], s, i);
    TakesStays(part, s, more, i, j);
    RunJoins(part, [], s + more, i, j);
  }

  lemma EarlierStays(core: seq<Item>, s: string, more: string)
    requires End !in core && EarlierMatches(core, s)
    ensures EarlierMatches(core, s + more)
  {
    var parts := Split(core, Bar);
    var part :| part in parts[..|parts| - 1] && AlternativeMatches(part, s);
    PartsKeepOut(core, Bar, End);
    assert part in parts;
    AlternativeStays(part, s, more);
  }

  // ---------- what a tail takes ----------

  /** The rest of a subject that a tail takes. */
  predicate TailTakes(tail: Tail, rest: string) {
    match tail
    case Nothing => rest == ""
    case Slash => rest == ['/']
    case Period => rest == ['.']
    case Child => '/' !in rest
    case Deep => EndsDeep(rest)
    case SlashChild => StartsWith(rest, '/') && '/' !in rest[1..]
    case SlashDeep => StartsWith(rest, '/') && EndsDeep(rest[1..])
  }

  lemma OneCharDenotes(c: char, s: string)
    requires c != '*' && c != '?'
    ensures Denotes([c], s, false) <==> s == [c]
  {
    assert [c][1..] == "";
    if s != "" {
      assert s == [s[0]] + s[1..];
    }
  }

  lemma SlashAndThen(text: string, rest: string, s: string)
    requires text == "/" + rest
    ensures Denotes(text, s, false) <==> StartsWith(s, '/') && Denotes(rest, s[1..], false)
  {
    SlashThen(rest, s);
  }

  lemma TailDenotes(tail: Tail, s: string)
    ensures Denotes(TailText(tail), s, false) <==> TailTakes(tail, s)
  {
    match tail
    case Nothing =>
    case Slash => OneCharDenotes('/', s);
    case Period => OneCharDenotes('.', s);
    case Child => StarDenotes(s);
    case Deep => DeepTailDenotes(s);
    case SlashChild =>
      SlashAndThen("/*", "*", s);
      if s != "" {
        StarDenotes(s[1..]);
      }
    case SlashDeep =>
      SlashAndThen("/**/*", "**/*", s);
      if s != "" {
        DeepTailDenotes(s[1..]);
      }
  }

  lemma TailMatches(tail: Tail, s: string, j: nat)
    requires j <= |s|
    ensures MatchesFrom(TailItems(tail), s, j) <==> TailTakes(tail, s[j..])
  {
    TailIsPlain(tail);
    ItemsMatch(TailText(tail), s, j);
    TailDenotes(tail, s[j..]);
  }

  lemma LastPartSplits(core: seq<Item>, tail: Tail, s: string) returns (i: nat, j: nat)
    requires End !in core && AlternativeMatches(LastPart(core) + TailItems(tail), s)
    ensures i <= |s| && j <= |s| && Takes(LastPart(core), s, i, j) && TailTakes(tail, s[j..])
  {
    var items := TailItems(tail);
    i :| 0 <= i <= |s| && MatchesFrom(LastPart(core) + items, s, i);
    PartsKeepOut(core, Bar, End);
    j := RunSplits(LastPart(core), items, s, i);
    TailMatches(tail, s, j);
  }

  lemma LastPartJoins(core: seq<Item>, tail: Tail, s: string, i: nat, j: nat)
    requires i <= |s| && j <= |s| && Takes(LastPart(core), s, i, j) && TailTakes(tail, s[j..])
    ensures AlternativeMatches(LastPart(core) + TailItems(tail), s)
  {
    TailMatches(tail, s, j);
    RunJoins(LastPart(core), TailItems(tail), s, i, j);
  }

  // ---------- the tails of one base close ----------

  /** What a base is appended to: a pattern, the root, or the current directory. */
  datatype Place = Below | AtRoot | Here

  /** The three tails of a base. */
  function Tails(place: Place): (tails: seq<Tail>)
    ensures |tails| == 3
  {
    match place
    case Below => [Nothing, SlashChild, SlashDeep]
    case AtRoot => [Slash, SlashChild, SlashDeep]
    case Here => [Period, Child, Deep]
  }

  predicate SafeBelow(below: string) {
    forall i :: 0 <= i < LastIndex(below, '/') ==> below[i] != '\n'
  }

  lemma DeepTailFree(directory: string, k: nat)
    requires k <= |directory| && EndsDeep(directory[k..]) && '\n' !in LastComponent(directory)
    ensures '\n' !in directory[k..]
  {
    var tail := directory[k..];
    var m := LastIndex(tail, '/');
    assert directory[k + m + 1..] == tail[m + 1..];
    SlashFreeSuffix(directory, k + m + 1);
    assert tail == tail[..m] + ['/'] + tail[m + 1..];
  }

  /** What a directory leaves to a tail without a slash in front has no newline, when its last component has none. */
  lemma HereRest(tail: Tail, directory: string, j: nat)
    requires tail in {Period, Child, Deep} && j <= |directory| && TailTakes(tail, directory[j..])
    requires '\n' !in LastComponent(directory)
    ensures '\n' !in directory[j..]
  {
    if tail.Child? {
      SlashFreeSuffix(directory, j);
    } else if tail.Deep? {
      DeepTailFree(directory, j);
    }
  }

  lemma SlashRest(tail: Tail, directory: string, j: nat)
    requires tail in {Slash, SlashChild, SlashDeep} && j <= |directory| && TailTakes(tail, directory[j..])
    requires '\n' !in LastComponent(directory)
    ensures StartsWith(directory[j..], '/') && '\n' !in directory[j..][1..]
  {
    assert directory[j..][1..] == directory[j + 1..];
    if tail.SlashChild? {
      SlashFreeSuffix(directory, j + 1);
    } else if tail.SlashDeep? {
      DeepTailFree(directory, j + 1);
    }
  }

  lemma SlashDeepTakes(rest: string, below: string)
    requires StartsWith(rest, '/') && '\n' !in rest[1..] && SafeBelow(below)
    ensures TailTakes(SlashDeep, rest + "/" + below)
  {
    DeepTailEnds(rest[1..], below);
    assert (rest + "/" + below)[1..] == rest[1..] + "/" + below;
  }

  /** Below a bare pattern there is a child or a deeper descendant. */
  lemma BareCloses(below: string)
    requires SafeBelow(below)
    ensures TailTakes(SlashChild, "/" + below) || TailTakes(SlashDeep, "/" + below)
  {
    assert ("/" + below)[1..] == below;
    var n := LastIndex(below, '/');
    if n >= 0 {
      assert forall c :: c in below[..n] ==> c != '\n';
    }
  }

  /** Whatever tail of a base a directory leaves, the same base has one for every path below it. */
  lemma TailsClose(place: Place, k: nat, directory: string, j: nat, below: string) returns (m: nat)
    requires k < 3 && j <= |directory| && TailTakes(Tails(place)[k], directory[j..])
    requires NewlineSafe(directory, below)
    ensures m < 3 && TailTakes(Tails(place)[m], directory[j..] + "/" + below)
  {
    var rest, tail := directory[j..], Tails(place)[k];
    m := 2;
    if tail.Nothing? {
      assert rest + "/" + below == "/" + below;
      BareCloses(below);
      m := if TailTakes(SlashChild, "/" + below) then 1 else 2;
    } else if place.Here? {
      HereRest(tail, directory, j);
      DeepTailEnds(rest, below);
    } else {
      SlashRest(tail, directory, j);
      SlashDeepTakes(rest, below);
    }
  }

  /** One of the expressions of a base over a core matches. */
  predicate FamilyMatch(core: seq<Item>, tails: seq<Tail>, s: string) {
    exists k :: 0 <= k < |tails| && MatchString(core + TailItems(tails[k]), s)
  }

  lemma EarlierCloses(core: seq<Item>, tail: Tail, directory: string, more: string)
    requires End !in core && EarlierMatches(core, directory)
    ensures MatchString(core + TailItems(tail), directory + more)
  {
    EarlierStays(core, directory, more);
    TailHasNoBar(tail);
    MatchByParts(core, TailItems(tail), directory + more);
  }

  lemma LastPartCloses(core: seq<Item>, place: Place, k: nat, directory: string, below: string) returns (m: nat)
    requires End !in core && k < 3 && NewlineSafe(directory, below)
    requires AlternativeMatches(LastPart(core) + TailItems(Tails(place)[k]), directory)
    ensures m < 3 && AlternativeMatches(LastPart(core) + TailItems(Tails(place)[m]), directory + ("/" + below))
  {
    var more, last := "/" + below, LastPart(core);
    var i, j := LastPartSplits(core, Tails(place)[k], directory);
    m := TailsClose(place, k, directory, j, below);
    TakesStays(last, directory, more, i, j);
    RestExtends(directory, below, j);
    LastPartJoins(core, Tails(place)[m], directory + more, i, j);
  }

  lemma RestExtends(directory: string, below: string, j: nat)
    requires j <= |directory|
    ensures (directory + ("/" + below))[j..] == directory[j..] + "/" + below
  {
  }

  /** A base whose expressions match a directory has one that matches each path below it, bars and counts included. */
  lemma ExpressionsClose(core: seq<Item>, place: Place, directory: string, below: string)
    requires End !in core && FamilyMatch(core, Tails(place), directory)
    requires NewlineSafe(directory, below)
    ensures FamilyMatch(core, Tails(place), directory + ("/" + below))
  {
    var k :| 0 <= k < 3 && MatchString(core + TailItems(Tails(place)[k]), directory);
    TailHasNoBar(Tails(place)[k]);
    MatchByParts(core, TailItems(Tails(place)[k]), directory);
    if EarlierMatches(core, directory) {
      EarlierCloses(core, Tails(place)[k], directory, "/" + below);
    } else {
      var m := LastPartCloses(core, place, k, directory, below);
      TailHasNoBar(Tails(place)[m]);
      MatchByParts(core, TailItems(Tails(place)[m]), directory + ("/" + below));
    }
  }

  // ---------- the lines close ----------

  /** The pattern that a base appends its tails to, and where that stands. */
  function BaseStem(rooted: bool, components: seq<string>): string {
    if components == [] then "" else Render(rooted, components)
  }

  function BasePlace(rooted: bool, components: seq<string>): Place {
    if components != [] then Below else if rooted then AtRoot else Here
  }

  lemma BaseByTails(rooted: bool, components: seq<string>, k: nat)
    requires k < 3
    ensures Base(rooted, components)[k]
            == BaseStem(rooted, components) + TailText(Tails(BasePlace(rooted, components))[k])
  {
    BaseText(rooted, components);
    var t := Render(rooted, components);
    assert t + "" == t && t + "/" + "*" == t + "/*" && t + "/" + "**/*" == t + "/**/*";
  }

  /** One of the compiled texts of a base matches. */
  predicate BaseHits(texts: seq<string>, path: string) {
    exists k :: 0 <= k < |texts| && Compile(texts[k]).Compiled? && Match(Compile(texts[k]).glob, path)
  }

  lemma CompiledItems(text: string)
    requires Compile(text).Compiled?
    ensures Compile(text).glob.items == Expression(ToSlash(text))
  {
    CompiledForm(text);
  }

  lemma StemMatches(text: string, stem: string, tail: Tail, path: string)
    requires text == stem + TailText(tail) && Compile(text).Compiled? && (stem == "" || !OpensStar(tail))
    ensures Match(Compile(text).glob, path) <==> MatchString(Core(ToSlash(stem)) + TailItems(tail), ToSlash(path))
  {
    CompiledItems(text);
    ToSlashConcat(stem, TailText(tail));
    TailIsPlain(tail);
    CoreText(ToSlash(stem), tail);
  }

  lemma BaseTextMatches(rooted: bool, components: seq<string>, k: nat, path: string)
    requires k < 3 && Compile(Base(rooted, components)[k]).Compiled?
    ensures Match(Compile(Base(rooted, components)[k]).glob, path)
            <==> MatchString(Core(ToSlash(BaseStem(rooted, components)))
                             + TailItems(Tails(BasePlace(rooted, components))[k]), ToSlash(path))
  {
    BaseByTails(rooted, components, k);
    StemMatches(Base(rooted, components)[k], BaseStem(rooted, components),
                Tails(BasePlace(rooted, components))[k], path);
  }

  lemma BaseCloses(rooted: bool, components: seq<string>, directory: string, below: string)
    requires forall text :: text in Base(rooted, components) ==> Compile(text).Compiled?
    requires BaseHits(Base(rooted, components), directory)
    requires NewlineSafe(ToSlash(directory), ToSlash(below))
    ensures BaseHits(Base(rooted, components), directory + "/" + below)
  {
    var texts, place := Base(rooted, components), BasePlace(rooted, components);
    var core := Core(ToSlash(BaseStem(rooted, components)));
    var path := directory + "/" + below;
    forall k | 0 <= k < 3 ensures Compile(texts[k]).Compiled? {
      assert texts[k] in texts;
    }
    var k :| 0 <= k < 3 && Match(Compile(texts[k]).glob, directory);
    BaseTextMatches(rooted, components, k, directory);
    NoEndCore(ToSlash(BaseStem(rooted, components)));
    assert FamilyMatch(core, Tails(place), ToSlash(directory));
    ExpressionsClose(core, place, ToSlash(directory), ToSlash(below));
    SlashBelow(directory, below);
    var m :| 0 <= m < 3 && MatchString(core + TailItems(Tails(place)[m]), ToSlash(path));
    BaseTextMatches(rooted, components, m, path);
  }

  lemma SlashBelow(directory: string, below: string)
    ensures ToSlash(directory + "/" + below) == ToSlash(directory) + "/" + ToSlash(below)
    ensures ToSlash(directory + "/" + below) == ToSlash(directory) + ("/" + ToSlash(below))
  {
  }

  lemma LineHits(line: Line, path: string, texts: seq<string>)
    requires CompileAll(texts).Ok? && texts == GlobTexts(line.pattern)
    ensures LineMatches(line, path) <==> BaseHits(texts, path)
  {
    LineMatchesTexts(line, path);
    CompileAllOk(texts);
    if LineMatches(line, path) {
      var text :| text in texts && Compile(text).Compiled? && Match(Compile(text).glob, path);
      var k :| 0 <= k < |texts| && texts[k] == text;
    }
  }

  lemma HitsConcat(a: seq<string>, b: seq<string>, path: string)
    ensures BaseHits(a + b, path) <==> BaseHits(a, path) || BaseHits(b, path)
  {
    if BaseHits(a, path) {
      var k :| 0 <= k < |a| && Compile(a[k]).Compiled? && Match(Compile(a[k]).glob, path);
      assert (a + b)[k] == a[k];
    }
    if BaseHits(b, path) {
      var k :| 0 <= k < |b| && Compile(b[k]).Compiled? && Match(Compile(b[k]).glob, path);
      assert (a + b)[|a| + k] == b[k];
    }
  }

  /** A line that matches a directory matches every path below it, whatever the line says. */
  lemma LineCloses(line: Line, directory: string, below: string)
    requires Clean(line.pattern) == line.pattern && LineMatches(line, directory)
    requires NewlineSafe(ToSlash(directory), ToSlash(below))
    ensures LineMatches(line, directory + "/" + below)
  {
    var rooted, components := CleanShape(line.pattern);
    var texts, path := GlobTexts(line.pattern), directory + "/" + below;
    assert CompileAll(texts).Ok?;
    FamilyTexts(rooted, components);
    CompileAllOk(texts);
    LineHits(line, directory, texts);
    LineHits(line, path, texts);
    var here, deep := Base(rooted, components), if rooted then [] else Base(false, DeepComponents(components));
    assert texts == here + deep;
    HitsConcat(here, deep, directory);
    HitsConcat(here, deep, path);
    if BaseHits(here, directory) {
      BaseCloses(rooted, components, directory, below);
    } else {
      BaseCloses(false, DeepComponents(components), directory, below);
    }
  }

  /** Does line k of the list match the path, as the list has rewritten it by then? */
  predicate MatchesAt(lines: seq<Line>, k: nat, path: string)
    requires k < |lines|
  {
    LineMatches(lines[k], PathSeen(lines[..k + 1], path))
  }

  lemma MatchesAtPrefix(lines: seq<Line>, n: nat, k: nat, path: string)
    requires k < n <= |lines|
    ensures MatchesAt(lines[..n], k, path) == MatchesAt(lines, k, path)
  {
    assert lines[..n][..k + 1] == lines[..k + 1];
  }

  lemma VerdictStep(lines: seq<Line>, path: string)
    requires lines != []
    ensures var n := |lines| - 1;
            LineVerdict(lines, path)
                == if MatchesAt(lines, n, path) then lines[n].exclude else LineVerdict(lines[..n], path)
  {
    assert lines[..|lines|] == lines;
  }

  /** The verdict after line m. */
  lemma VerdictAfter(lines: seq<Line>, m: nat, path: string)
    requires m < |lines|
    ensures LineVerdict(lines[..m + 1], path)
            == if MatchesAt(lines, m, path) then lines[m].exclude else LineVerdict(lines[..m], path)
  {
    assert lines[..m + 1] == lines[..m] + [lines[m]];
    LineVerdictSnoc(lines[..m], lines[m], path);
  }

  /** No `!` line after k matches the path. */
  ghost predicate NotReincluded(lines: seq<Line>, k: nat, path: string) {
    forall j :: k < j < |lines| && !lines[j].exclude ==> !MatchesAt(lines, j, path)
  }

  lemma VerdictFromMatch(lines: seq<Line>, path: string, k: nat)
    requires k < |lines| && lines[k].exclude && MatchesAt(lines, k, path)
    requires NotReincluded(lines, k, path)
    ensures LineVerdict(lines, path)
  {
    VerdictAfter(lines, k, path);
    var m := k + 1;
    while m < |lines|
      invariant k < m <= |lines| && LineVerdict(lines[..m], path)
    {
      VerdictAfter(lines, m, path);
      m := m + 1;
    }
    assert lines[..m] == lines;
  }

  lemma SeenBelow(lines: seq<Line>, directory: string, below: string)
    requires directory != ""
    ensures PathSeen(lines, directory + "/" + below) == PathSeen(lines, directory) + "/" + below
  {
    assert "/" + (directory + "/" + below) == "/" + directory + "/" + below;
  }

  lemma RootedLastComponent(d: string)
    ensures LastComponent("/" + d) == LastComponent(d)
  {
    var m := LastIndex(d, '/');
    var rooted := "/" + d;
    assert m >= 0 ==> rooted[m + 1] == '/';
    forall i | m + 1 < i < |rooted| ensures rooted[i] != '/' {
      assert rooted[i] == d[i - 1];
    }
    LastIndexIs(rooted, '/', m + 1);
    assert rooted[m + 2..] == d[m + 1..];
  }

  lemma RootedNewlineSafe(lines: seq<Line>, directory: string, below: string)
    requires NewlineSafe(ToSlash(directory), below)
    ensures NewlineSafe(ToSlash(PathSeen(lines, directory)), below)
  {
    ToSlashRoot(directory);
    RootedLastComponent(ToSlash(directory));
  }

  /**
   Descendant closure: when exclude line k matches a directory, every path below it is ignored
   unless a later `!` line matches that path.
   */
  lemma DescendantsIgnored(lines: seq<Line>, k: nat, directory: string, below: string)
    requires Cleaned(lines) && k < |lines| && lines[k].exclude && directory != ""
    requires MatchesAt(lines, k, directory)
    requires NewlineSafe(ToSlash(directory), ToSlash(below))
    requires NotReincluded(lines, k, directory + "/" + below)
    ensures LineVerdict(lines, directory + "/" + below)
  {
    assert lines[k] in lines;
    SeenBelow(lines[..k + 1], directory, below);
    RootedNewlineSafe(lines[..k + 1], directory, ToSlash(below));
    LineCloses(lines[k], PathSeen(lines[..k + 1], directory), below);
    VerdictFromMatch(lines, directory + "/" + below, k);
  }

  /** There is no `!` line. */
  predicate ExcludeOnly(lines: seq<Line>) {
    forall line :: line in lines ==> line.exclude
  }

  lemma {:induction false} VerdictHasMatch(lines: seq<Line>, path: string) returns (k: nat)
    requires LineVerdict(lines, path)
    ensures k < |lines| && lines[k].exclude && MatchesAt(lines, k, path)
  {
    var n := |lines| - 1;
    VerdictStep(lines, path);
    if MatchesAt(lines, n, path) {
      k := n;
    } else {
      k := VerdictHasMatch(lines[..n], path);
      MatchesAtPrefix(lines, n, k, path);
    }
  }

  /** Without `!` lines nothing under an ignored directory is ever kept. */
  lemma NothingKeptBelow(lines: seq<Line>, directory: string, below: string)
    requires Cleaned(lines) && ExcludeOnly(lines) && directory != "" && LineVerdict(lines, directory)
    requires NewlineSafe(ToSlash(directory), ToSlash(below))
    ensures LineVerdict(lines, directory + "/" + below)
  {
    var k := VerdictHasMatch(lines, directory);
    assert lines[k] in lines;
    forall j | k < j < |lines| ensures lines[j].exclude {
      assert lines[j] in lines;
    }
    DescendantsIgnored(lines, k, directory, below);
  }
}
