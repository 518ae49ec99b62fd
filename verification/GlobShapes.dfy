/**
 The shortest texts of a pattern: those the documentation gives it and those its expression matches. A
 counted repetition makes the two differ, a bar makes the expression match before the pattern ends.
 */
module GlobShapes {
  import opened Options
  import opened Text
  import opened Regex
  import opened Globs
  import opened GlobReading

  // ---------- matching an expression ----------

  lemma StarRuns(a: Atom, rest: seq<Item>, s: string, i: nat)
    requires i <= |s|
    ensures MatchesFrom([Star(a)] + rest, s, i) <==>
            exists k :: i <= k <= |s| && AllowsRun(a, s, i, k) && MatchesFrom(rest, s, k)
  {
    assert ([Star(a)] + rest)[1..] == rest;
  }

  lemma {:induction false} NoBarItems(pat: string)
    requires '|' !in pat
    ensures Bar !in Items(pat)
    decreases |pat|
  {
    if pat != "" {
      NoBarItems(pat[TokenWidth(pat)..]);
    }
  }

  /** An expression without `|` has one alternative. */
  lemma OneAlternative(pat: string, s: string)
    requires '|' !in pat
    ensures MatchString(Expression(pat), s) <==> AlternativeMatches(Expression(pat), s)
  {
    var items := Expression(pat);
    NoBarItems(pat[AnchorWidth(pat)..]);
    SplitWhole(items, Bar);
    assert items in Split(items, Bar);
  }

  // ---------- shortest texts ----------

  /** A text of the given shape: character by character, `?` standing for any non-slash. */
  predicate Fits(shape: string, s: string) {
    |s| == |shape| && forall i :: 0 <= i < |s| ==> if shape[i] == '?' then s[i] != '/' else s[i] == shape[i]
  }

  lemma FitsConcat(a: string, b: string, s: string)
    ensures Fits(a + b, s) <==> |s| == |a| + |b| && Fits(a, s[..|a|]) && Fits(b, s[|a|..])
  {
    if |s| == |a| + |b| {
      if Fits(a, s[..|a|]) && Fits(b, s[|a|..]) {
        forall i | 0 <= i < |s| ensures if (a + b)[i] == '?' then s[i] != '/' else s[i] == (a + b)[i] {
          if i >= |a| {
            assert s[|a|..][i - |a|] == s[i];
          }
        }
      }
      if Fits(a + b, s) {
        forall i | 0 <= i < |b| ensures if b[i] == '?' then s[|a|..][i] != '/' else s[|a|..][i] == b[i] {
          assert (a + b)[|a| + i] == b[i];
        }
        forall i | 0 <= i < |a| ensures if a[i] == '?' then s[..|a|][i] != '/' else s[..|a|][i] == a[i] {
          assert (a + b)[i] == a[i];
        }
      }
    }
  }

  /** A pattern without its stars: the shape of the shortest texts that the documentation gives it. */
  function Stripped(pat: string): string {
    if pat == "" then "" else (if pat[0] == '*' then "" else [pat[0]]) + Stripped(pat[1..])
  }

  /** What the first token adds to the shortest texts that the expression matches. */
  function Opening(pat: string): string
    requires pat != ""
  {
    if pat[0] == '*' then ""
    else match ReadCount(pat[1..])
      case None => [pat[0]]
      case Some((bounds, _)) => Repeat(pat[0], bounds.min)
  }

  /** A pattern without its stars and with its counts carried out: the shape of the shortest texts matched. */
  function Expanded(pat: string): string
    decreases |pat|
  {
    if pat == "" then "" else Opening(pat) + Expanded(pat[TokenWidth(pat)..])
  }

  /** The same for a whole pattern, whose opening count only repeats the anchor. */
  function ExpandedAll(pat: string): string {
    Expanded(pat[AnchorWidth(pat)..])
  }

  lemma StrippedStar(pat: string)
    requires pat != "" && pat[0] == '*'
    ensures Stripped(pat) == Stripped(pat[StarsWidth(pat)..])
  {
    if OpensDouble(pat) {
      assert pat[1..][1..] == pat[2..];
      assert Stripped(pat[1..]) == Stripped(pat[2..]);
    }
  }

  lemma {:induction false} StrippedDenotes(pat: string, s: string, newlines: bool)
    requires Fits(Stripped(pat), s)
    ensures Denotes(pat, s, newlines)
    decreases |pat|
  {
    if pat != "" {
      if pat[0] == '*' {
        StrippedStar(pat);
        assert s[0..] == s && s[..0] == "";
        StrippedDenotes(pat[StarsWidth(pat)..], s, newlines);
      } else {
        FitsConcat([pat[0]], Stripped(pat[1..]), s);
        StrippedDenotes(pat[1..], s[1..], newlines);
      }
    }
  }

  /** A text the pattern denotes is no shorter than its stripped shape, and equally long only if it fits. */
  lemma {:induction false} StrippedNeeded(pat: string, s: string, newlines: bool)
    requires Denotes(pat, s, newlines)
    ensures |s| >= |Stripped(pat)| && (|s| == |Stripped(pat)| ==> Fits(Stripped(pat), s))
    decreases |pat|
  {
    if pat != "" {
      if pat[0] == '*' {
        var n := StarsWidth(pat);
        StrippedStar(pat);
        var k :| 0 <= k <= |s| && Denotes(pat[n..], s[k..], newlines);
        StrippedNeeded(pat[n..], s[k..], newlines);
        assert s[0..] == s;
      } else {
        StrippedNeeded(pat[1..], s[1..], newlines);
        FitsConcat([pat[0]], Stripped(pat[1..]), s);
      }
    }
  }

  lemma RunFits(c: char, n: nat, s: string, i: nat)
    requires i + n <= |s|
    ensures AllowsRun(AtomOf(c), s, i, i + n) <==> Fits(Repeat(c, n), s[i..i + n])
  {
    forall j | i <= j < i + n ensures s[i..i + n][j - i] == s[j] {
    }
    if Fits(Repeat(c, n), s[i..i + n]) {
      forall j | i <= j < i + n ensures AtomAllows(AtomOf(c), s[j]) {
        assert s[i..i + n][j - i] == s[j];
      }
    }
  }

  /** The shape is that of the shortest texts an item takes: a character as often as it must be. */
  predicate ItemShape(item: Item, shape: string) {
    match item
    case One(a) => |shape| == 1 && a == AtomOf(shape[0])
    case Times(a, bounds) =>
      && |shape| == bounds.min && InBounds(bounds, bounds.min)
      && (shape != "" ==> a == AtomOf(shape[0]) && shape == Repeat(shape[0], bounds.min))
    case _ => false
  }

  lemma RunTakes(a: Atom, bounds: Bounds, rest: seq<Item>, s: string, i: nat, k: nat)
    requires i <= k <= |s| && InBounds(bounds, k - i) && AllowsRun(a, s, i, k) && MatchesFrom(rest, s, k)
    ensures MatchesFrom([Times(a, bounds)] + rest, s, i)
  {
    assert ([Times(a, bounds)] + rest)[1..] == rest;
  }

  /** An item takes a text of its shape, and the rest matches behind it. */
  lemma ItemTakesShape(item: Item, shape: string, rest: seq<Item>, s: string, i: nat)
    requires ItemShape(item, shape) && i + |shape| <= |s| && Fits(shape, s[i..i + |shape|])
    requires MatchesFrom(rest, s, i + |shape|)
    ensures MatchesFrom([item] + rest, s, i)
  {
    match item
    case One(a) =>
      assert ([item] + rest)[1..] == rest;
      assert s[i..i + 1][0] == s[i];
    case Times(a, bounds) =>
      if shape != "" {
        RunFits(shape[0], |shape|, s, i);
      }
      RunTakes(a, bounds, rest, s, i, i + |shape|);
  }

  /** What a match of an item takes is no shorter than its shape, and equally long only if it fits. */
  lemma ItemNeedsShape(item: Item, shape: string, rest: seq<Item>, s: string, i: nat) returns (k: nat)
    requires ItemShape(item, shape) && i <= |s| && MatchesFrom([item] + rest, s, i)
    ensures i + |shape| <= k <= |s| && MatchesFrom(rest, s, k)
    ensures k == i + |shape| ==> Fits(shape, s[i..k])
  {
    assert ([item] + rest)[1..] == rest;
    match item
    case One(a) =>
      k := i + 1;
    case Times(a, bounds) =>
      k :| i <= k <= |s| && InBounds(bounds, k - i) && AllowsRun(a, s, i, k) && MatchesFrom(rest, s, k);
      if shape != "" {
        RunFits(shape[0], |shape|, s, i);
      }
  }

  lemma FitsTwo(a: string, b: string, s: string, i: nat)
    requires i + |a| <= |s|
    ensures Fits(a + b, s[i..]) <==> Fits(a, s[i..i + |a|]) && Fits(b, s[i + |a|..])
  {
    FitsConcat(a, b, s[i..]);
    assert s[i..][..|a|] == s[i..i + |a|] && s[i..][|a|..] == s[i + |a|..];
  }

  /** Item by item, the shapes of the shortest texts. */
  predicate HaveShapes(items: seq<Item>, shapes: seq<string>) {
    |items| == |shapes| && forall k :: 0 <= k < |items| ==> ItemShape(items[k], shapes[k])
  }

  function Flat(shapes: seq<string>): string {
    if shapes == [] then "" else shapes[0] + Flat(shapes[1..])
  }

  lemma EndMatches(s: string, i: nat)
    requires i <= |s|
    ensures MatchesFrom([End], s, i) <==> i == |s|
  {
    assert [End][1..] == [];
  }

  /** Items match every text of their shapes. */
  lemma {:induction false} ShapesMatch(items: seq<Item>, shapes: seq<string>, s: string, i: nat)
    requires HaveShapes(items, shapes) && i <= |s| && Fits(Flat(shapes), s[i..])
    ensures MatchesFrom(items + [End], s, i)
    decreases items
  {
    if items == [] {
      assert items + [End] == [End];
      EndMatches(s, i);
    } else {
      var rest := items[1..] + [End];
      assert items + [End] == [items[0]] + rest;
      FitsTwo(shapes[0], Flat(shapes[1..]), s, i);
      ShapesMatch(items[1..], shapes[1..], s, i + |shapes[0]|);
      ItemTakesShape(items[0], shapes[0], rest, s, i);
    }
  }

  /** A text that items match is no shorter than their shapes, and equally long only if it fits them. */
  lemma {:induction false} ShapesNeeded(items: seq<Item>, shapes: seq<string>, s: string, i: nat)
    requires HaveShapes(items, shapes) && i <= |s| && MatchesFrom(items + [End], s, i)
    ensures |s| - i >= |Flat(shapes)| && (|s| - i == |Flat(shapes)| ==> Fits(Flat(shapes), s[i..]))
    decreases items
  {
    if items == [] {
      assert items + [End] == [End];
      EndMatches(s, i);
    } else {
      var rest := items[1..] + [End];
      assert items + [End] == [items[0]] + rest;
      var k := ItemNeedsShape(items[0], shapes[0], rest, s, i);
      ShapesNeeded(items[1..], shapes[1..], s, k);
      FitsTwo(shapes[0], Flat(shapes[1..]), s, i);
    }
  }

  /** The shapes of a pattern's tokens. */
  function Openings(pat: string): seq<string>
    decreases |pat|
  {
    if pat == "" then [] else [Opening(pat)] + Openings(pat[TokenWidth(pat)..])
  }

  lemma TokenShape(pat: string)
    requires pat != "" && '|' !in pat && TokenFits(pat)
    ensures ItemShape(FirstItem(pat), Opening(pat))
  {
    if pat[0] != '*' {
      PieceToken(pat);
    }
  }

  /** Each token of a pattern has its shape, and together they are the expanded pattern. */
  lemma {:induction false} PatternShapes(pat: string)
    requires '|' !in pat && TokensFit(pat)
    ensures HaveShapes(Items(pat), Openings(pat)) && Flat(Openings(pat)) == Expanded(pat)
    decreases |pat|
  {
    if pat != "" {
      var next := pat[TokenWidth(pat)..];
      TokenShape(pat);
      PatternShapes(next);
      assert Openings(pat)[1..] == Openings(next);
    }
  }

  /** The expression matches every text of the expanded shape. */
  lemma ExpandedMatches(pat: string, s: string, i: nat)
    requires '|' !in pat && TokensFit(pat) && i <= |s| && Fits(Expanded(pat), s[i..])
    ensures MatchesFrom(Items(pat) + [End], s, i)
  {
    PatternShapes(pat);
    ShapesMatch(Items(pat), Openings(pat), s, i);
  }

  /** A text the expression matches is no shorter than the expanded shape, and equally long only if it fits. */
  lemma ExpandedNeeded(pat: string, s: string, i: nat)
    requires '|' !in pat && TokensFit(pat) && i <= |s| && MatchesFrom(Items(pat) + [End], s, i)
    ensures |s| - i >= |Expanded(pat)| && (|s| - i == |Expanded(pat)| ==> Fits(Expanded(pat), s[i..]))
  {
    PatternShapes(pat);
    ShapesNeeded(Items(pat), Openings(pat), s, i);
  }

  lemma ExpressionFrom(pat: string, s: string, i: nat)
    requires i <= |s|
    ensures MatchesFrom(Expression(pat), s, i) <==>
            (Anchor(pat) == [] || i == 0) && MatchesFrom(Items(pat[AnchorWidth(pat)..]) + [End], s, i)
  {
    var rest := Items(pat[AnchorWidth(pat)..]) + [End];
    assert Expression(pat) == Anchor(pat) + rest;
    if Anchor(pat) == [] {
      assert [] + rest == rest;
    } else {
      assert ([Begin] + rest)[1..] == rest;
    }
  }

  lemma CountsFitUnanchored(pat: string)
    requires CountsFit(pat)
    ensures TokensFit(pat[AnchorWidth(pat)..])
  {
    assert pat[0..] == pat;
    if ReadCount(pat).Some? {
      CountsFitAnchored(pat);
    }
    CountsFitTokens(pat[AnchorWidth(pat)..]);
  }

  lemma ShapeMatches(pat: string, s: string)
    requires '|' !in pat && CountsFit(pat) && Fits(ExpandedAll(pat), s)
    ensures MatchString(Expression(pat), s)
  {
    CountsFitUnanchored(pat);
    assert s[0..] == s;
    ExpandedMatches(pat[AnchorWidth(pat)..], s, 0);
    ExpressionFrom(pat, s, 0);
    OneAlternative(pat, s);
  }

  lemma ShapeNeeded(pat: string, s: string)
    requires '|' !in pat && CountsFit(pat) && MatchString(Expression(pat), s)
    ensures |s| >= |ExpandedAll(pat)| && (|s| == |ExpandedAll(pat)| ==> Fits(ExpandedAll(pat), s))
  {
    CountsFitUnanchored(pat);
    OneAlternative(pat, s);
    var i :| 0 <= i <= |s| && MatchesFrom(Expression(pat), s, i);
    ExpressionFrom(pat, s, i);
    ExpandedNeeded(pat[AnchorWidth(pat)..], s, i);
    assert s[0..] == s;
  }

  // ---------- carrying counts out changes the shortest texts ----------

  lemma {:induction false} StrippedSkip(pat: string, m: nat)
    requires m <= |pat| && '*' !in pat[..m]
    ensures Stripped(pat) == pat[..m] + Stripped(pat[m..])
  {
    if m == 0 {
      assert pat[0..] == pat;
    } else {
      assert pat[..m][0] == pat[0] && pat[..m][1..] == pat[1..][..m - 1];
      assert pat[1..][m - 1..] == pat[m..];
      StrippedSkip(pat[1..], m - 1);
    }
  }

  /** A count behind a token is part of the stripped text, brace and digits included. */
  lemma StrippedCount(pat: string)
    requires ReadCount(pat).Some?
    ensures var m := ReadCount(pat).value.1;
            Stripped(pat) == pat[..m] + Stripped(pat[m..]) && pat[0] == '{' && pat[1] != '{'
  {
    var m := ReadCount(pat).value.1;
    ReadCountShape(pat);
    StrippedSkip(pat, m);
  }

  /** The stripped text of a first token: its character, unless a star, and its count. */
  function Written(pat: string): string
    requires pat != ""
  {
    (if pat[0] == '*' then "" else [pat[0]]) + pat[StarsWidth(pat)..TokenWidth(pat)]
  }

  lemma StrippedToken(pat: string)
    requires pat != ""
    ensures Stripped(pat) == Written(pat) + Stripped(pat[TokenWidth(pat)..])
  {
    var n, w := StarsWidth(pat), TokenWidth(pat);
    if pat[0] == '*' {
      StrippedStar(pat);
    }
    if ReadCount(pat[n..]).Some? {
      StrippedCount(pat[n..]);
      assert pat[n..][..w - n] == pat[n..w] && pat[n..][w - n..] == pat[w..];
    }
  }

  lemma WrittenCount(pat: string)
    requires pat != "" && pat[0] != '*' && ReadCount(pat[1..]).Some?
    ensures |Written(pat)| >= 4 && Written(pat)[1] == '{' && Written(pat)[2] != '{'
    ensures Opening(pat) == Repeat(pat[0], ReadCount(pat[1..]).value.0.min)
  {
    ReadCountShape(pat[1..]);
    assert pat[1..TokenWidth(pat)][0] == pat[1..][0] && pat[1..TokenWidth(pat)][1] == pat[1..][1];
  }

  lemma Overrun(extra: string, written: string, rest: string, c: char, k: nat, tail: string)
    requires extra + (written + rest) == Repeat(c, k) + tail
    requires |written| >= 4 && written[1] == '{' && written[2] != '{'
    ensures k < |extra| + |written|
  {
    var e, whole := |extra|, extra + (written + rest);
    assert whole[e + 1] == '{' && whole[e + 2] != '{';
    assert forall i :: 0 <= i < k ==> whole[i] == c;
  }

  /** However the texts before a counted token agree, behind it they have the wrong length or the wrong character. */
  lemma TokenOverrun(extra: string, pat: string, rest: string)
    requires pat != "" && extra + (Written(pat) + rest) == Opening(pat) + Expanded(pat[TokenWidth(pat)..])
    ensures |Opening(pat)| <= |extra| + |Written(pat)|
    ensures ReadCount(pat[StarsWidth(pat)..]).Some? ==> |Opening(pat)| < |extra| + |Written(pat)|
  {
    if pat[0] != '*' && ReadCount(pat[1..]).Some? {
      WrittenCount(pat);
      Overrun(extra, Written(pat), rest, pat[0], |Opening(pat)|, Expanded(pat[TokenWidth(pat)..]));
    }
  }

  lemma ExpandedToken(pat: string)
    requires pat != ""
    ensures Expanded(pat) == Opening(pat) + Expanded(pat[TokenWidth(pat)..])
  {
  }

  /** Equal shapes leave equal shapes behind the first token. */
  lemma ShapeStep(extra: string, pat: string, rest: string) returns (left: string)
    requires pat != "" && rest == pat[TokenWidth(pat)..] && extra + Stripped(pat) == Expanded(pat)
    ensures left + Stripped(rest) == Expanded(rest)
    ensures |left| == |extra| + |Written(pat)| - |Opening(pat)|
    ensures ReadCount(pat[StarsWidth(pat)..]).Some? ==> left != ""
  {
    StrippedToken(pat);
    ExpandedToken(pat);
    TokenOverrun(extra, pat, Stripped(rest));
    left := LeftOver(extra, Written(pat), Stripped(rest), Opening(pat), Expanded(rest));
  }

  lemma PlainToken(pat: string)
    requires pat != "" && ReadCount(pat[StarsWidth(pat)..]).None?
    ensures |Written(pat)| == |Opening(pat)|
  {
    assert pat[StarsWidth(pat)..TokenWidth(pat)] == "";
  }

  /** Text written before a pattern never makes its stripped and its expanded shape the same. */
  lemma {:induction false} ShapesDiffer(extra: string, pat: string)
    requires extra != "" || (HasCount(pat) && ReadCount(pat).None?)
    ensures extra + Stripped(pat) != Expanded(pat)
    decreases |pat|
  {
    if pat != "" && extra + Stripped(pat) == Expanded(pat) {
      var left := ShapeStep(extra, pat, pat[TokenWidth(pat)..]);
      if ReadCount(pat[StarsWidth(pat)..]).None? {
        PlainToken(pat);
        if extra == "" {
          CountBehindToken(pat);
        }
      }
      ShapesDiffer(left, pat[TokenWidth(pat)..]);
      assert false;
    }
  }

  lemma LeftOver(extra: string, written: string, a: string, opening: string, b: string) returns (left: string)
    requires extra + (written + a) == opening + b && |opening| <= |extra| + |written|
    ensures left + a == b && |left| == |extra| + |written| - |opening|
  {
    var front := extra + written;
    assert front + a == opening + b;
    left := front[|opening|..];
    assert (front + a)[|opening|..] == left + a;
    assert (opening + b)[|opening|..] == b;
  }

  lemma CountBehindToken(pat: string)
    requires pat != "" && HasCount(pat) && ReadCount(pat).None? && ReadCount(pat[StarsWidth(pat)..]).None?
    ensures HasCount(pat[TokenWidth(pat)..]) && ReadCount(pat[TokenWidth(pat)..]).None?
  {
    var n := StarsWidth(pat);
    var i :| 0 <= i < |pat| && ReadCount(pat[i..]).Some?;
    assert pat[0..] == pat && pat[i..][0] == pat[i];
    assert pat[n..][i - n..] == pat[i..];
  }

  lemma ShapesDifferAll(pat: string)
    requires HasCount(pat)
    ensures Stripped(pat) != ExpandedAll(pat)
  {
    if ReadCount(pat).Some? {
      StrippedCount(pat);
      ShapesDiffer(pat[..AnchorWidth(pat)], pat[AnchorWidth(pat)..]);
    } else {
      assert pat[AnchorWidth(pat)..] == pat;
      ShapesDiffer("", pat);
      assert "" + Stripped(pat) == Stripped(pat);
    }
  }

  /** A text of the given shape, its wildcards filled with one character. */
  function Filled(shape: string, c: char): (s: string)
    requires c != '/'
    ensures Fits(shape, s)
    ensures forall i :: 0 <= i < |shape| ==> s[i] == if shape[i] == '?' then c else shape[i]
  {
    seq(|shape|, i requires 0 <= i < |shape| => if shape[i] == '?' then c else shape[i])
  }

  /** Two shapes of one length that differ somewhere: a text fits one of them only. */
  lemma ShapesApart(a: string, b: string) returns (s: string)
    requires |a| == |b| && a != b
    ensures !(Fits(a, s) <==> Fits(b, s))
            && (s == Filled(a, 'x') || s == Filled(a, 'y') || s == Filled(b, 'x') || s == Filled(b, 'y'))
  {
    var j :| 0 <= j < |a| && a[j] != b[j];
    if a[j] == '?' {
      s := Filled(a, if b[j] == 'x' then 'y' else 'x');
      assert s[j] != b[j];
    } else {
      s := Filled(b, if a[j] == 'x' then 'y' else 'x');
      assert s[j] != a[j];
    }
  }

  lemma {:induction false} ExpandedChars(pat: string, c: char)
    requires c !in pat
    ensures c !in Expanded(pat) && c !in Stripped(pat)
    decreases |pat|
  {
    if pat != "" {
      ExpandedChars(pat[TokenWidth(pat)..], c);
      if ReadCount(pat[1..]).Some? {
        assert forall d :: d in Repeat(pat[0], ReadCount(pat[1..]).value.0.min) ==> d == pat[0];
      }
      StrippedToken(pat);
    }
  }

  lemma ShapeChars(pat: string, c: char)
    requires c !in pat && c != 'x' && c != 'y'
    ensures c !in Filled(Stripped(pat), 'x') && c !in Filled(Stripped(pat), 'y')
    ensures c !in Filled(ExpandedAll(pat), 'x') && c !in Filled(ExpandedAll(pat), 'y')
  {
    ExpandedChars(pat, c);
    ExpandedChars(pat[AnchorWidth(pat)..], c);
  }

  /** With a count, some short text is matched and not documented, or the other way round. */
  lemma CountTellsApart(pat: string, newlines: bool) returns (s: string)
    requires '|' !in pat && '\\' !in pat && CountsFit(pat) && HasCount(pat)
    ensures !(MatchString(Expression(pat), s) <==> Denotes(pat, s, newlines))
    ensures '\\' !in s && ('\n' !in pat ==> '\n' !in s)
  {
    var a, b := Stripped(pat), ExpandedAll(pat);
    ShapesDifferAll(pat);
    ShapeChars(pat, '\\');
    if '\n' !in pat {
      ShapeChars(pat, '\n');
    }
    if |a| < |b| {
      s := Filled(a, 'x');
    } else if |b| < |a| {
      s := Filled(b, 'x');
    } else {
      s := ShapesApart(a, b);
    }
    ShapeDecides(pat, s, newlines);
  }

  /** Of a text that fits one of the two shapes and is no longer than either, only that reading accepts it. */
  lemma ShapeDecides(pat: string, s: string, newlines: bool)
    requires '|' !in pat && CountsFit(pat)
    requires Fits(Stripped(pat), s) || Fits(ExpandedAll(pat), s)
    requires !(Fits(Stripped(pat), s) <==> Fits(ExpandedAll(pat), s))
    requires |s| <= |Stripped(pat)| && |s| <= |ExpandedAll(pat)|
    ensures !(MatchString(Expression(pat), s) <==> Denotes(pat, s, newlines))
  {
    if Fits(Stripped(pat), s) {
      StrippedDenotes(pat, s, newlines);
      if MatchString(Expression(pat), s) {
        ShapeNeeded(pat, s);
      }
    } else {
      ShapeMatches(pat, s);
      if Denotes(pat, s, newlines) {
        StrippedNeeded(pat, s, newlines);
      }
    }
  }

  // ---------- a bar cuts the expression ----------

  lemma NoCountBehindBar(a: string, b: string)
    requires CountsFit(a + "|" + b)
    ensures ReadCount(b).None?
  {
    var pat, i := a + "|" + b, |a| + 1;
    assert pat[i..] == b && pat[i - 1] == '|';
  }

  lemma ItemsOfBar(b: string)
    requires ReadCount(b).None?
    ensures Items("|" + b) == [Bar] + Items(b)
  {
    var bar := "|" + b;
    assert bar[1..] == b && StarsWidth(bar) == 1;
    assert TokenWidth(bar) == 1 && FirstItem(bar) == Bar;
  }

  lemma Regroup(anchor: seq<Item>, front: seq<Item>, back: seq<Item>)
    ensures anchor + (front + ([Bar] + back)) + [End] == anchor + front + [Bar] + (back + [End])
  {
  }

  lemma ItemsAroundBar(a: string, b: string)
    requires ReadCount(b).None?
    ensures Items(a + ("|" + b)) == Items(a) + ([Bar] + Items(b))
  {
    ItemsBefore(a, "|" + b);
    ItemsOfBar(b);
  }

  lemma ExpressionWithBar(a: string, b: string)
    requires ReadCount(b).None?
    ensures Expression(a + "|" + b) == Anchor(a) + Items(a[AnchorWidth(a)..]) + [Bar] + (Items(b) + [End])
  {
    var bar, w := "|" + b, AnchorWidth(a);
    assert a + "|" + b == a + bar;
    AnchorBefore(a, bar);
    assert (a + bar)[w..] == a[w..] + bar;
    ItemsAroundBar(a[w..], b);
    Regroup(Anchor(a), Items(a[w..]), Items(b));
  }

  lemma {:induction false} PrefixMatches(a: seq<Item>, b: seq<Item>, s: string, i: nat)
    requires i <= |s| && MatchesFrom(a + b, s, i)
    ensures MatchesFrom(a, s, i)
    decreases a
  {
    if a != [] {
      assert (a + b)[1..] == a[1..] + b;
      match a[0]
      case One(_) => PrefixMatches(a[1..], b, s, i + 1);
      case Times(x, bounds) =>
        var k :| i <= k <= |s| && InBounds(bounds, k - i) && AllowsRun(x, s, i, k) && MatchesFrom(a[1..] + b, s, k);
        PrefixMatches(a[1..], b, s, k);
      case Begin => PrefixMatches(a[1..], b, s, i);
      case End => PrefixMatches(a[1..], b, s, i);
      case Bar =>
    }
  }

  /** The first alternative of a pattern with a bar. */
  function FirstAlternative(a: string): seq<Item> {
    Anchor(a) + Items(a[AnchorWidth(a)..])
  }

  lemma FirstAlternativeSplits(a: string, b: string)
    requires '|' !in a && ReadCount(b).None?
    ensures FirstAlternative(a) in Split(Expression(a + "|" + b), Bar)
  {
    var front := FirstAlternative(a);
    ExpressionWithBar(a, b);
    NoBarItems(a[AnchorWidth(a)..]);
    SplitConcat(front, Bar, Items(b) + [End]);
    SplitWhole(front, Bar);
  }

  lemma FirstAlternativeMatches(a: string, s: string)
    requires '|' !in a && CountsFit(a) && Fits(ExpandedAll(a), s)
    ensures MatchesFrom(FirstAlternative(a), s, 0)
  {
    CountsFitUnanchored(a);
    assert s[0..] == s;
    ExpandedMatches(a[AnchorWidth(a)..], s, 0);
    ExpressionFrom(a, s, 0);
    PrefixMatches(FirstAlternative(a), [End], s, 0);
  }

  /** The part of a pattern before its first `|` already makes the expression match. */
  lemma BarMatchesPrefix(a: string, b: string, s: string)
    requires '|' !in a && CountsFit(a + "|" + b) && Fits(ExpandedAll(a), s)
    ensures MatchString(Expression(a + "|" + b), s)
  {
    assert a + "|" + b == a + ("|" + b);
    CountsFitFront(a, "|" + b);
    NoCountBehindBar(a, b);
    FirstAlternativeSplits(a, b);
    FirstAlternativeMatches(a, s);
    assert AlternativeMatches(FirstAlternative(a), s);
  }

  lemma BarMatches(pat: string) returns (s: string)
    requires '|' in pat && '\\' !in pat && CountsFit(pat)
    ensures MatchString(Expression(pat), s)
    ensures '|' !in s && '\\' !in s && ('\n' !in pat ==> '\n' !in s)
  {
    var parts := Split(pat, '|');
    var a := parts[0];
    assert a in parts;
    JoinSplit(pat, '|');
    assert |parts| == 1 ==> Join(parts, '|') == a;
    var b := Join(parts[1..], '|');
    assert pat == a + "|" + b;
    s := Filled(ExpandedAll(a), 'x');
    forall c | c in {'|', '\\', '\n'} && c !in a ensures c !in s {
      ShapeChars(a, c);
    }
    BarMatchesPrefix(a, b, s);
  }
}
