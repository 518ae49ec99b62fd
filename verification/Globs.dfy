/** droplet_runner/command_factory/cf_ignore/glob/glob.go: the glob compiler and its matcher. */
module Globs {
  import opened Options
  import opened Text
  import opened Regex

  // ---------- the documented meaning ----------

  predicate OpensDouble(pat: string) {
    |pat| >= 2 && pat[0] == '*' && pat[1] == '*'
  }

  /** Does the pattern contain two adjacent stars? */
  predicate HasDoubleStar(pat: string) {
    exists i :: 0 <= i < |pat| - 1 && pat[i] == '*' && pat[i + 1] == '*'
  }

  /** Does a counted repetition occur? Braces are not escaped, so the regexp package reads it as one. */
  predicate HasCount(pat: string) {
    exists i :: 0 <= i < |pat| && ReadCount(pat[i..]).Some?
  }

  /**
   A counted repetition may stand at position i: bounds up to 1000 in order, and nothing but one character
   to repeat.
   */
  predicate CountFits(pat: string, i: nat)
    requires i <= |pat| && ReadCount(pat[i..]).Some?
  {
    var (bounds, n) := ReadCount(pat[i..]).value;
    && BoundsFit(bounds)
    && (i > 0 ==> pat[i - 1] != '*' && pat[i - 1] != '|')
    && ReadCount(pat[i + n..]).None?
  }

  /** No counted repetition is out of bounds or follows a star, a bar or another one. */
  predicate CountsFit(pat: string) {
    forall i :: 0 <= i < |pat| && ReadCount(pat[i..]).Some? ==> CountFits(pat, i)
  }

  /**
   The glob notation of the package documentation, read directly off the pattern: `?` one non-slash
   character, `*` a run of them, `**` any run, all else itself. With newlines false, `**` does not
   reach over a newline.
   */
  ghost predicate Denotes(pat: string, s: string, newlines: bool)
    decreases |pat|
  {
    if pat == "" then s == ""
    else if OpensDouble(pat) then
      exists k :: 0 <= k <= |s| && (newlines || '\n' !in s[..k]) && Denotes(pat[2..], s[k..], newlines)
    else if pat[0] == '*' then
      exists k :: 0 <= k <= |s| && '/' !in s[..k] && Denotes(pat[1..], s[k..], newlines)
    else
      s != "" && (if pat[0] == '?' then s[0] != '/' else s[0] == pat[0]) && Denotes(pat[1..], s[1..], newlines)
  }

  // ---------- which patterns are accepted ----------

  /** One or more non-slash characters: `(charPat|[\*\?])+`. */
  predicate IsSegment(s: string) {
    s != "" && '/' !in s
  }

  /** `(/segment)*` */
  ghost predicate IsSegmentList(s: string)
    decreases |s|
  {
    s == "" ||
    (s[0] == '/' && exists k :: 1 < k <= |s| && IsSegment(s[1..k]) && IsSegmentList(s[k..]))
  }

  /** What globRe matches, read off its expression `^/$|^(segment)?(/segment)*$`. */
  ghost predicate GlobReMatches(pat: string) {
    pat == "/" || IsSegmentList(pat) ||
    exists k :: 0 < k <= |pat| && IsSegment(pat[..k]) && IsSegmentList(pat[k..])
  }

  predicate HasDoubleSlash(pat: string) {
    exists i :: 0 <= i < |pat| - 1 && pat[i] == '/' && pat[i + 1] == '/'
  }

  predicate Accepted(pat: string) {
    pat == "/" || (!HasDoubleSlash(pat) && !(pat != "" && pat[|pat| - 1] == '/'))
  }

  lemma SegmentListShape(s: string)
    requires IsSegmentList(s)
    ensures s == "" || (s[0] == '/' && s != "/" && !HasDoubleSlash(s) && s[|s| - 1] != '/')
    decreases |s|
  {
    if s != "" {
      var k :| 1 < k <= |s| && IsSegment(s[1..k]) && IsSegmentList(s[k..]);
      SegmentListShape(s[k..]);
      forall i | 0 <= i < |s| - 1 ensures !(s[i] == '/' && s[i + 1] == '/') {
        if i < k - 1 {
          assert s[i + 1] == s[1..k][i];
        } else if i == k - 1 {
          assert s[i] == s[1..k][i - 1];
        } else {
          assert s[i] == s[k..][i - k] && s[i + 1] == s[k..][i - k + 1];
        }
      }
      assert s[|s| - 1] == if k == |s| then s[1..k][k - 2] else s[k..][|s| - k - 1];
    }
  }

  /** The end of the run of non-slash characters that starts at i. */
  function SegmentEnd(s: string, i: nat): (k: nat)
    requires i <= |s|
    ensures i <= k <= |s| && '/' !in s[i..k]
    ensures k < |s| ==> s[k] == '/'
    ensures i < |s| && s[i] != '/' ==> i < k
    decreases |s| - i
  {
    if i == |s| || s[i] == '/' then i
    else
      var k := SegmentEnd(s, i + 1);
      assert s[i..k] == [s[i]] + s[i + 1..k];
      k
  }

  lemma SegmentListFrom(s: string)
    requires s == "" || s[0] == '/'
    requires !HasDoubleSlash(s) && (s == "" || s[|s| - 1] != '/')
    ensures IsSegmentList(s)
    decreases |s|
  {
    if s != "" {
      var k := SegmentEnd(s, 1);
      var rest := s[k..];
      forall i | 0 <= i < |rest| - 1 ensures !(rest[i] == '/' && rest[i + 1] == '/') {
        assert rest[i] == s[k + i] && rest[i + 1] == s[k + i + 1];
      }
      SegmentListFrom(rest);
    }
  }

  /** globRe accepts exactly "/" and the texts with no empty component and no trailing slash. */
  lemma GlobReAccepts(pat: string)
    ensures GlobReMatches(pat) <==> Accepted(pat)
  {
    if GlobReMatches(pat) && pat != "/" {
      if IsSegmentList(pat) {
        SegmentListShape(pat);
      } else {
        var k :| 0 < k <= |pat| && IsSegment(pat[..k]) && IsSegmentList(pat[k..]);
        SegmentListShape(pat[k..]);
        forall i | 0 <= i < |pat| - 1 ensures !(pat[i] == '/' && pat[i + 1] == '/') {
          if i < k {
            assert pat[i] == pat[..k][i];
          } else {
            assert pat[i] == pat[k..][i - k] && pat[i + 1] == pat[k..][i - k + 1];
          }
        }
        assert pat[|pat| - 1] == if k == |pat| then pat[..k][k - 1] else pat[k..][|pat| - k - 1];
      }
    }
    if Accepted(pat) && pat != "/" {
      var k := SegmentEnd(pat, 0);
      var rest := pat[k..];
      forall i | 0 <= i < |rest| - 1 ensures !(rest[i] == '/' && rest[i + 1] == '/') {
        assert rest[i] == pat[k + i] && rest[i + 1] == pat[k + i + 1];
      }
      SegmentListFrom(rest);
      assert pat[0..k] == pat[..k];
      if k == 0 {
        assert rest == pat;
      }
    }
  }

  // ---------- translation ----------

  /** Bytes of a pattern in UTF-8, the length the source gives its slot array. */
  function ByteLength(pat: string): (n: nat)
    ensures n >= |pat|
  {
    if pat == "" then 0
    else
      var c := pat[0] as int;
      (if c < 0x80 then 1 else if c < 0x800 then 2 else if c < 0x1_0000 then 3 else 4) + ByteLength(pat[1..])
  }

  /** The characters translateGlob escapes. */
  predicate IsMeta(c: char) {
    c in ".+-^$[]()"
  }

  /** The regex piece for a character other than a star. */
  function Piece(c: char): string {
    if c == '?' then "[^/]" else if IsMeta(c) then ['\\', c] else [c]
  }

  /** The left-to-right, longest-match tokenizer: the regex piece of each token. */
  function Pieces(pat: string): seq<string> {
    if pat == "" then []
    else if OpensDouble(pat) then [".*"] + Pieces(pat[2..])
    else if pat[0] == '*' then ["[^/]*"] + Pieces(pat[1..])
    else [Piece(pat[0])] + Pieces(pat[1..])
  }

  function Concat(pieces: seq<string>): string {
    if pieces == [] then "" else Concat(pieces[..|pieces| - 1]) + pieces[|pieces| - 1]
  }

  /** Does the tokenizer end in a single star that a next star would complete? */
  predicate PendingStar(pat: string) {
    Pieces(pat) != [] && Pieces(pat)[|Pieces(pat)| - 1] == "[^/]*"
  }

  /** One more character at the right end of a tokenization: a pending star is completed, else a piece is added. */
  function Extend(pieces: seq<string>, c: char): seq<string> {
    if pieces != [] && pieces[|pieces| - 1] == "[^/]*" && c == '*' then pieces[..|pieces| - 1] + [".*"]
    else pieces + [if c == '*' then "[^/]*" else Piece(c)]
  }

  lemma ExtendCons(first: string, pieces: seq<string>, c: char)
    requires pieces != [] || first != "[^/]*"
    ensures Extend([first] + pieces, c) == [first] + Extend(pieces, c)
  {
    if pieces != [] {
      assert ([first] + pieces)[..|pieces|] == [first] + pieces[..|pieces| - 1];
    }
  }

  lemma PiecesOfStarAnd(c: char)
    ensures Pieces(['*', c]) == Extend(Pieces("*"), c)
  {
    var whole := ['*', c];
    assert whole[1..] == [c] && whole[2..] == "" && [c][1..] == "" && "*"[1..] == "";
    assert Pieces("") == [];
  }

  /** A pattern with a first token of known length, that a single star does not form alone. */
  lemma PiecesFirst(pat: string)
    requires pat != ""
    ensures Pieces(pat) == [Pieces(pat)[0]] + Pieces(pat[if OpensDouble(pat) then 2 else 1..])
    ensures Pieces(pat)[0] == "[^/]*" ==> pat[0] == '*' && !OpensDouble(pat)
  {
    assert |Piece(pat[0])| < |"[^/]*"|;
  }

  lemma PiecesEmpty(pat: string)
    ensures Pieces(pat) == [] <==> pat == ""
  {
  }

  /** The tokenizer reads left to right, so a character at the right end extends its output. */
  lemma {:induction false} PiecesSnoc(pat: string, c: char)
    ensures Pieces(pat + [c]) == Extend(Pieces(pat), c)
    decreases |pat|
  {
    var whole := pat + [c];
    if pat == "" {
      assert whole[1..] == "";
    } else if pat == "*" {
      assert whole == ['*', c];
      PiecesOfStarAnd(c);
    } else {
      var n := if OpensDouble(pat) then 2 else 1;
      assert whole[n..] == pat[n..] + [c];
      assert OpensDouble(whole) == OpensDouble(pat);
      PiecesFirst(pat);
      PiecesFirst(whole);
      PiecesSnoc(pat[n..], c);
      PiecesEmpty(pat[n..]);
      ExtendCons(Pieces(pat)[0], Pieces(pat[n..]), c);
    }
  }

  datatype Translation = Translated(text: string) | GlobError(pattern: string)

  /** What translateGlob answers, stated with the tokenizer. */
  function Translate(pat: string): Translation {
    if Accepted(pat) then Translated("^" + Concat(Pieces(pat)) + "$") else GlobError(pat)
  }

  lemma ConcatSnoc(pieces: seq<string>, last: string)
    ensures Concat(pieces + [last]) == Concat(pieces) + last
  {
    assert (pieces + [last])[..|pieces|] == pieces;
  }

  /** The slots after one more character, given the slots so far. */
  function NextSlots(slots: seq<string>, c: char, double: bool): seq<string>
    requires double ==> slots != []
  {
    if c != '*' then slots + [Piece(c)]
    else if double then slots[..|slots| - 1] + [".*"] + [""]
    else slots + ["[^/]*"]
  }

  lemma ConcatRewrite(slots: seq<string>, pieces: seq<string>, last: string, next: string)
    requires slots != [] && slots[|slots| - 1] == last && pieces != [] && pieces[|pieces| - 1] == last
    requires Concat(slots) == Concat(pieces)
    ensures Concat(slots[..|slots| - 1] + [next] + [""]) == Concat(pieces[..|pieces| - 1] + [next])
  {
    var front := slots[..|slots| - 1];
    ConcatSnoc(front + [next], "");
    ConcatSnoc(front, next);
    ConcatSnoc(pieces[..|pieces| - 1], next);
    assert Concat(front) + last == Concat(pieces[..|pieces| - 1]) + last;
    assert Concat(front) == (Concat(front) + last)[..|Concat(front)|];
  }

  /** One loop step keeps slots and tokenizer in agreement. */
  lemma SlotStep(slots: seq<string>, pat: string, c: char)
    requires Concat(slots) == Concat(Pieces(pat))
    requires PendingStar(pat) ==> slots != [] && slots[|slots| - 1] == "[^/]*"
    ensures Concat(NextSlots(slots, c, PendingStar(pat))) == Concat(Pieces(pat + [c]))
  {
    var pieces := Pieces(pat);
    PiecesSnoc(pat, c);
    if PendingStar(pat) && c == '*' {
      ConcatRewrite(slots, pieces, "[^/]*", ".*");
    } else {
      ConcatSnoc(slots, if c == '*' then "[^/]*" else Piece(c));
      ConcatSnoc(pieces, if c == '*' then "[^/]*" else Piece(c));
    }
  }

  /** The flag of the loop tells whether the tokenizer waits for a second star. */
  lemma PendingStep(pat: string, c: char)
    ensures PendingStar(pat + [c]) <==> c == '*' && !PendingStar(pat)
  {
    PiecesSnoc(pat, c);
    assert |Piece(c)| < |"[^/]*"|;
  }

  /** Slots and flag after a stretch of the pattern: together its tokens, the flag while a last single star waits. */
  ghost predicate Translating(slots: seq<string>, done: string, double: bool) {
    && Concat(slots) == Concat(Pieces(done))
    && double == PendingStar(done)
    && (double ==> slots != [] && slots[|slots| - 1] == "[^/]*")
  }

  /** One round of the loop carries slots and flag one character further. */
  lemma LoopStep(slots: seq<string>, done: string, c: char, double: bool)
    requires Translating(slots, done, double)
    ensures Translating(NextSlots(slots, c, double), done + [c], c == '*' && !double)
  {
    SlotStep(slots, done, c);
    PendingStep(done, c);
  }

  /** The switch of translateGlob: writes slot i, or the slot before it when a star completes a pair. */
  method WriteSlot(outs: array<string>, i: nat, c: char, double: bool) returns (pending: bool)
    requires i < outs.Length && outs[i] == "" && (double ==> i > 0)
    modifies outs
    ensures outs[..i + 1] == NextSlots(old(outs[..i]), c, double)
    ensures forall j :: i < j < outs.Length ==> outs[j] == old(outs[j])
    ensures pending == (c == '*' && !double)
  {
    ghost var slots := outs[..i];
    if c == '?' {
      outs[i] := "[^/]";
      pending := false;
      assert outs[..i + 1] == slots + ["[^/]"];
    } else if c == '*' {
      if double {
        outs[i - 1] := ".*";
        assert outs[..i + 1] == slots[..i - 1] + [".*"] + [""];
      } else {
        outs[i] := "[^/]*";
        assert outs[..i + 1] == slots + ["[^/]*"];
      }
      pending := !double;
    } else if IsMeta(c) {
      outs[i] := ['\\', c];
      pending := false;
      assert outs[..i + 1] == slots + [['\\', c]];
    } else {
      outs[i] := [c];
      pending := false;
      assert outs[..i + 1] == slots + [[c]];
    }
  }

  /**
   translateGlob: one pass over the pattern into a slot array, rewriting the previous slot when a
   second star arrives.
   */
  method TranslateGlob(pat: string) returns (r: Translation)
    ensures r == Translate(pat)
  {
    if !Accepted(pat) {
      return GlobError(pat);
    }
    var outs := new string[ByteLength(pat)](_ => "");
    var i, double := 0, false;
    assert pat[..0] == "" && outs[..0] == [];
    while i < |pat|
      invariant 0 <= i <= |pat|
      invariant forall j :: i <= j < outs.Length ==> outs[j] == ""
      invariant Translating(outs[..i], pat[..i], double)
    {
      LoopStep(outs[..i], pat[..i], pat[i], double);
      assert pat[..i + 1] == pat[..i] + [pat[i]];
      double := WriteSlot(outs, i, pat[i], double);
      i := i + 1;
    }
    assert pat[..i] == pat;
    r := Translated("^" + Concat(outs[..i]) + "$");
  }

  // ---------- compiled globs ----------

  /** A compiled glob: the slash-normalised pattern and what its regular expression reads as. */
  datatype Glob = Glob(pattern: string, items: seq<Item>)

  /** BadRegex: the regexp package refuses the translated text. */
  datatype Compilation = Compiled(glob: Glob) | InvalidGlob(pattern: string) | BadRegex(text: string)

  function ToSlash(path: string): (r: string)
    ensures |r| == |path|
    ensures forall i :: 0 <= i < |path| ==> r[i] == if path[i] == '\\' then '/' else path[i]
  {
    seq(|path|, i requires 0 <= i < |path| => if path[i] == '\\' then '/' else path[i])
  }

  /** What CompileGlob answers. */
  function Compile(pat: string): Compilation {
    match Translate(ToSlash(pat))
    case GlobError(p) => InvalidGlob(p)
    case Translated(text) =>
      match Read(text)
      case None => BadRegex(text)
      case Some(items) => Compiled(Glob(ToSlash(pat), items))
  }

  method CompileGlob(pat: string) returns (r: Compilation)
    ensures r == Compile(pat)
  {
    var p := ToSlash(pat);
    var translation := TranslateGlob(p);
    match translation
    case GlobError(q) => r := InvalidGlob(q);
    case Translated(text) =>
      match Read(text)
      case None => r := BadRegex(text);
      case Some(items) => r := Compiled(Glob(p, items));
  }

  predicate Match(g: Glob, path: string) {
    MatchString(g.items, ToSlash(path))
  }
}
