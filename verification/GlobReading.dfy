/** The emitted regular expression, read back: one item per token, and exactly when it is an expression at all. */
module GlobReading {
  import opened Options
  import opened Text
  import opened Regex
  import opened Globs

  /** The regex atom of a character other than a star or a bar. */
  function AtomOf(c: char): Atom {
    if c == '?' then NotChar('/') else Lit(c)
  }

  /** The regex item of a character other than a star; `|` is not escaped, so it becomes an alternative bar. */
  function ItemOf(c: char): Item {
    if c == '|' then Bar else One(AtomOf(c))
  }

  function StarsWidth(pat: string): nat {
    if OpensDouble(pat) then 2 else 1
  }

  /** The length of the first token: two stars or one character, and the counted repetition behind it. */
  function TokenWidth(pat: string): (n: nat)
    requires pat != ""
    ensures StarsWidth(pat) <= n <= |pat|
  {
    var n := StarsWidth(pat);
    match ReadCount(pat[n..])
    case None => n
    case Some((_, m)) => n + m
  }

  /** The regex item of the first token. */
  function FirstItem(pat: string): Item
    requires pat != ""
  {
    if OpensDouble(pat) then Star(Dot)
    else if pat[0] == '*' then Star(NotChar('/'))
    else match ReadCount(pat[1..])
      case None => ItemOf(pat[0])
      case Some((bounds, _)) => Times(AtomOf(pat[0]), bounds)
  }

  /** The regex item of each token of a pattern. */
  function Items(pat: string): seq<Item>
    decreases |pat|
  {
    if pat == "" then [] else [FirstItem(pat)] + Items(pat[TokenWidth(pat)..])
  }

  /** The length of a counted repetition that opens the pattern and so repeats the anchor. */
  function AnchorWidth(pat: string): (n: nat)
    ensures n <= |pat|
  {
    match ReadCount(pat)
    case None => 0
    case Some((_, m)) => m
  }

  /** The opening anchor; a counted repetition that allows none takes it away. */
  function Anchor(pat: string): seq<Item> {
    match ReadCount(pat)
    case None => [Begin]
    case Some((bounds, _)) => if bounds.min == 0 then [] else [Begin]
  }

  /** The expression of a pattern: anchor, one item per token, end anchor. */
  function Expression(pat: string): seq<Item> {
    Anchor(pat) + Items(pat[AnchorWidth(pat)..]) + [End]
  }

  lemma {:induction false} ConcatCons(first: string, rest: seq<string>)
    ensures Concat([first] + rest) == first + Concat(rest)
    decreases rest
  {
    var whole := [first] + rest;
    if rest == [] {
      assert whole[..0] == [];
    } else {
      assert whole[..|whole| - 1] == [first] + rest[..|rest| - 1];
      ConcatCons(first, rest[..|rest| - 1]);
    }
  }

  /** The text that follows the opening anchor. */
  function Body(pat: string): string {
    Concat(Pieces(pat)) + "$"
  }

  lemma BodyUnfold(pat: string)
    requires pat != ""
    ensures Body(pat) ==
            if OpensDouble(pat) then ".*" + Body(pat[2..])
            else if pat[0] == '*' then "[^/]*" + Body(pat[1..])
            else Piece(pat[0]) + Body(pat[1..])
  {
    if OpensDouble(pat) {
      ConcatCons(".*", Pieces(pat[2..]));
    } else if pat[0] == '*' {
      ConcatCons("[^/]*", Pieces(pat[1..]));
    } else {
      ConcatCons(Piece(pat[0]), Pieces(pat[1..]));
    }
  }

  lemma BodyHead(pat: string)
    ensures Body(pat) != "" && Body(pat)[0] != '*'
  {
    if pat != "" {
      BodyUnfold(pat);
    }
  }

  lemma {:induction false} BodyBounds(pat: string, p: Progress)
    ensures ReadBounds(Body(pat), p) == ReadBounds(pat, p)
  {
    if pat != "" {
      BodyUnfold(pat);
      if IsCountChar(pat[0]) {
        assert Body(pat)[0] == pat[0] && Body(pat)[1..] == Body(pat[1..]);
        BodyBounds(pat[1..], Further(p, pat[0]));
      } else {
        assert !IsCountChar(Body(pat)[0]);
      }
    }
  }

  /** Translation neither makes nor hides a repetition sign at the front of a text. */
  lemma BodyRepetition(pat: string)
    ensures ReadRepetition(Body(pat)) == ReadCount(pat) == ReadCount(Body(pat))
  {
    BodyHead(pat);
    if pat != "" {
      BodyUnfold(pat);
      if pat[0] == '{' {
        BodyBounds(pat[1..], InMin(""));
        assert Body(pat)[1..] == Body(pat[1..]);
      }
    }
  }

  lemma BodyStep(pat: string)
    requires pat != "" && (pat[0] == '{' || IsCountChar(pat[0]))
    ensures Body(pat) != "" && Body(pat)[1..] == Body(pat[1..])
  {
    BodyUnfold(pat);
    assert Piece(pat[0]) == [pat[0]];
  }

  lemma DropTwice(s: string, h: nat, m: nat, rest: string)
    requires h <= |s| && m <= |s[h..]| && s[h..][m..] == rest
    ensures h + m <= |s| && s[h + m..] == rest
  {
  }

  lemma {:induction false} BodySkip(pat: string, m: nat)
    requires m <= |pat| && forall i :: 0 <= i < m ==> pat[i] == '{' || IsCountChar(pat[i])
    ensures m <= |Body(pat)| && Body(pat)[m..] == Body(pat[m..])
  {
    if m == 0 {
      assert pat[0..] == pat && Body(pat)[0..] == Body(pat);
    } else {
      var last := pat[m - 1..];
      BodySkip(pat, m - 1);
      assert last[0] == pat[m - 1] && last[1..] == pat[m..];
      BodyStep(last);
      DropTwice(Body(pat), m - 1, 1, Body(pat[m..]));
    }
  }

  /** The counted repetition behind the first token, if there is one, may stand there. */
  predicate TokenFits(pat: string)
    requires pat != ""
  {
    var n := StarsWidth(pat);
    match ReadCount(pat[n..])
    case None => true
    case Some((bounds, m)) => pat[0] != '*' && pat[0] != '|' && BoundsFit(bounds) && ReadCount(pat[n + m..]).None?
  }

  /**
   The item at the front of a text, when its head, the sign behind the head, and whether another follows
   are known.
   */
  lemma ItemAt(text: string, item: Item, h: nat, repetition: Option<(Bounds, nat)>, stacked: bool)
    requires text != "" && ReadHead(text) == Some((item, h))
    requires ReadRepetition(text[h..]) == repetition && IsStacked(text[h..]) == stacked
    ensures ReadItem(text) == Attach(item, h, repetition, stacked)
  {
  }

  /** Translation neither makes nor hides a count behind a count. */
  lemma BodyStacked(pat: string)
    ensures IsStacked(Body(pat)) <==> ReadCount(pat).Some? && ReadCount(pat[AnchorWidth(pat)..]).Some?
  {
    BodyRepetition(pat);
    if ReadCount(pat).Some? {
      assert pat[0..] == pat;
      BodyCount(pat, 0);
    }
  }

  lemma StarItem(pat: string)
    requires pat != "" && pat[0] == '*'
    ensures var n := if OpensDouble(pat) then 2 else 5;
            && n <= |Body(pat)| && Body(pat)[n..] == Body(pat[StarsWidth(pat)..])
            && ReadItem(Body(pat)) == if TokenFits(pat) then Some(([FirstItem(pat)], n)) else None
  {
    var text, rest := Body(pat), Body(pat[StarsWidth(pat)..]);
    var a := if OpensDouble(pat) then Dot else NotChar('/');
    var h := if OpensDouble(pat) then 1 else 4;
    BodyUnfold(pat);
    assert text == (if OpensDouble(pat) then ".*" else "[^/]*") + rest;
    assert ReadHead(text) == Some((One(a), h));
    assert text[h..][0] == '*' && text[h..][1..] == rest && text[h + 1..] == rest;
    BodyRepetition(pat[StarsWidth(pat)..]);
    ItemAt(text, One(a), h, Some((Bounds(0, None), 1)), ReadCount(pat[StarsWidth(pat)..]).Some?);
  }

  lemma PieceHead(c: char, rest: string)
    requires c != '*' && c != '\\' && ReadCount([c] + rest).None?
    ensures ReadHead(Piece(c) + rest) == Some((ItemOf(c), |Piece(c)|))
  {
    var text := Piece(c) + rest;
    if c == '?' {
      assert text[0] == '[' && text[1] == '^' && text[2] == '/' && text[3] == ']';
    } else if IsMeta(c) {
      assert text[0] == '\\' && text[1] == c;
    } else {
      assert text == [c] + rest;
    }
  }

  lemma BodyHeadItem(pat: string)
    requires pat != "" && pat[0] != '*' && '\\' !in pat && ReadCount(pat).None?
    ensures ReadHead(Body(pat)) == Some((ItemOf(pat[0]), |Piece(pat[0])|))
    ensures Body(pat)[|Piece(pat[0])|..] == Body(pat[1..])
  {
    var c, rest := pat[0], Body(pat[1..]);
    BodyUnfold(pat);
    BodyRepetition(pat);
    if !IsMeta(c) && c != '?' {
      assert [c] + rest == Body(pat);
    }
    PieceHead(c, rest);
  }

  lemma BodyCount(pat: string, n: nat)
    requires n <= |pat| && ReadCount(pat[n..]).Some?
    ensures var m := ReadCount(pat[n..]).value.1;
            && m <= |Body(pat[n..])| && Body(pat[n..])[m..] == Body(pat[n + m..])
            && ReadRepetition(Body(pat[n..])[m..]) == ReadCount(pat[n + m..])
  {
    var m := ReadCount(pat[n..]).value.1;
    ReadCountShape(pat[n..]);
    BodySkip(pat[n..], m);
    assert pat[n..][m..] == pat[n + m..];
    BodyRepetition(pat[n + m..]);
  }

  /** Does another count follow the first token's count directly? */
  predicate Stacked(pat: string)
    requires pat != ""
  {
    var rest := pat[1..];
    ReadCount(rest).Some? && ReadCount(rest[AnchorWidth(rest)..]).Some?
  }

  /** The item of one piece. */
  lemma PieceItem(pat: string)
    requires pat != "" && pat[0] != '*' && '\\' !in pat && ReadCount(pat).None?
    ensures Body(pat) != ""
    ensures ReadItem(Body(pat)) == Attach(ItemOf(pat[0]), |Piece(pat[0])|, ReadCount(pat[1..]), Stacked(pat))
  {
    BodyHead(pat);
    BodyHeadItem(pat);
    BodyRepetition(pat[1..]);
    BodyStacked(pat[1..]);
    ItemAt(Body(pat), ItemOf(pat[0]), |Piece(pat[0])|, ReadCount(pat[1..]), Stacked(pat));
  }

  lemma PieceRest(pat: string)
    requires pat != "" && pat[0] != '*' && '\\' !in pat && ReadCount(pat).None?
    ensures |Piece(pat[0])| <= |Body(pat)| && Body(pat)[|Piece(pat[0])|..] == Body(pat[1..])
  {
    BodyHeadItem(pat);
  }

  lemma CountedRest(pat: string, m: nat)
    requires pat != "" && ReadCount(pat[1..]).Some? && m == ReadCount(pat[1..]).value.1
    ensures m <= |Body(pat[1..])| && Body(pat[1..])[m..] == Body(pat[1 + m..])
  {
    BodyCount(pat, 1);
  }

  lemma PieceRestAt(pat: string)
    requires pat != "" && pat[0] != '*' && '\\' !in pat && ReadCount(pat).None?
    ensures var n := |Piece(pat[0])| + TokenWidth(pat) - 1;
            n <= |Body(pat)| && Body(pat)[n..] == Body(pat[TokenWidth(pat)..])
  {
    PieceRest(pat);
    PieceToken(pat);
    if ReadCount(pat[1..]).Some? {
      var m := ReadCount(pat[1..]).value.1;
      CountedRest(pat, m);
      DropTwice(Body(pat), |Piece(pat[0])|, m, Body(pat[1 + m..]));
    }
  }

  /** A count attaches to the item of a character exactly when it may stand there. */
  lemma TokenAttaches(pat: string, h: nat)
    requires pat != "" && pat[0] != '*'
    ensures Attach(ItemOf(pat[0]), h, ReadCount(pat[1..]), Stacked(pat))
            == if TokenFits(pat) then Some(([FirstItem(pat)], h + TokenWidth(pat) - 1)) else None
  {
    PieceToken(pat);
  }

  lemma PieceItemFits(pat: string)
    requires pat != "" && pat[0] != '*' && '\\' !in pat && ReadCount(pat).None?
    ensures Body(pat) != ""
    ensures ReadItem(Body(pat))
            == if TokenFits(pat) then Some(([FirstItem(pat)], |Piece(pat[0])| + TokenWidth(pat) - 1)) else None
  {
    PieceItem(pat);
    TokenAttaches(pat, |Piece(pat[0])|);
  }

  lemma PieceToken(pat: string)
    requires pat != "" && pat[0] != '*'
    ensures ReadCount(pat[1..]).None? ==> TokenFits(pat) && FirstItem(pat) == ItemOf(pat[0]) && TokenWidth(pat) == 1
    ensures ReadCount(pat[1..]).Some? ==>
              var (bounds, m) := ReadCount(pat[1..]).value;
              && TokenWidth(pat) == 1 + m
              && (TokenFits(pat) <==> pat[0] != '|' && BoundsFit(bounds) && !Stacked(pat))
              && (TokenFits(pat) ==> Repeated(ItemOf(pat[0]), bounds) == [FirstItem(pat)])
  {
    assert StarsWidth(pat) == 1;
    if ReadCount(pat[1..]).Some? {
      assert pat[1..][AnchorWidth(pat[1..])..] == pat[1 + AnchorWidth(pat[1..])..];
    }
    if ReadCount(pat[1..]).Some? {
      assert pat[1..][AnchorWidth(pat[1..])..] == pat[1 + AnchorWidth(pat[1..])..];
    }
  }

  /** The first token of a pattern is the first item of its text, with its count if that may stand there. */
  lemma TokenItem(pat: string) returns (n: nat)
    requires pat != "" && '\\' !in pat && ReadCount(pat).None?
    ensures TokenFits(pat) ==>
              && n <= |Body(pat)| && Body(pat)[n..] == Body(pat[TokenWidth(pat)..])
              && ReadItem(Body(pat)) == Some(([FirstItem(pat)], n))
    ensures Body(pat) != "" && (!TokenFits(pat) ==> ReadItem(Body(pat)).None?)
  {
    BodyHead(pat);
    if pat[0] == '*' {
      StarItem(pat);
      n := if OpensDouble(pat) then 2 else 5;
    } else {
      PieceItemFits(pat);
      PieceRestAt(pat);
      n := |Piece(pat[0])| + TokenWidth(pat) - 1;
    }
  }

  lemma ReadStep(text: string, front: seq<Item>, n: nat, rest: string)
    requires text != "" && ReadItem(text) == Some((front, n)) && text[n..] == rest
    ensures Read(text) == Prepend(front, Read(rest))
  {
  }

  lemma CountFitsTail(pat: string, n: nat, i: nat)
    requires n <= |pat| && 0 < i < |pat[n..]| && ReadCount(pat[n + i..]).Some?
    ensures pat[n..][i..] == pat[n + i..] && (CountFits(pat[n..], i) <==> CountFits(pat, n + i))
  {
    assert pat[n..][i..] == pat[n + i..];
    var m := ReadCount(pat[n + i..]).value.1;
    assert pat[n..][i + m..] == pat[n + i + m..];
    assert pat[n..][i - 1] == pat[n + i - 1];
  }

  /** Counts that fit in a pattern fit in a tail of it that no count begins. */
  lemma CountsFitTail(pat: string, n: nat)
    requires n <= |pat| && ReadCount(pat[n..]).None? && CountsFit(pat)
    ensures CountsFit(pat[n..])
  {
    var tail := pat[n..];
    forall i | 0 <= i < |tail| && ReadCount(tail[i..]).Some? ensures CountFits(tail, i) {
      CountInTail(pat, n, i);
      CountFitsTail(pat, n, i);
    }
  }

  lemma CountInTail(pat: string, n: nat, i: nat)
    requires n <= |pat| && ReadCount(pat[n..]).None? && i < |pat[n..]| && ReadCount(pat[n..][i..]).Some?
    ensures i > 0 && ReadCount(pat[n + i..]).Some?
  {
    assert pat[n..][i..] == pat[n + i..];
    assert pat[n..][0..] == pat[n..];
  }

  /** Counts that fit in a tail fit in the pattern, when those before the tail do. */
  lemma CountsFitBefore(pat: string, n: nat)
    requires n <= |pat| && ReadCount(pat[n..]).None? && CountsFit(pat[n..])
    requires forall i :: 0 <= i < n && ReadCount(pat[i..]).Some? ==> CountFits(pat, i)
    ensures CountsFit(pat)
  {
    forall i | 0 <= i < |pat| && ReadCount(pat[i..]).Some? ensures CountFits(pat, i) {
      if i >= n {
        assert pat[n..][i - n..] == pat[i..];
        CountInTail(pat, n, i - n);
        CountFitsTail(pat, n, i - n);
      }
    }
  }

  /** Inside the first token no counted repetition begins but the one that belongs to it. */
  lemma CountInToken(pat: string, i: nat)
    requires pat != "" && 0 < i < TokenWidth(pat) && ReadCount(pat[i..]).Some?
    ensures i == StarsWidth(pat)
  {
    var n := StarsWidth(pat);
    assert pat[i..][0] == pat[i] == '{';
    if i > n {
      ReadCountShape(pat[n..]);
      assert false;
    }
  }

  lemma CountsFitStep(pat: string)
    requires pat != "" && ReadCount(pat).None?
    ensures CountsFit(pat) <==> TokenFits(pat) && CountsFit(pat[TokenWidth(pat)..])
  {
    var n, w := StarsWidth(pat), TokenWidth(pat);
    assert pat[0..] == pat;
    assert ReadCount(pat[n..]).Some? ==> n < |pat|;
    assert ReadCount(pat[n..]).Some? ==> (TokenFits(pat) <==> CountFits(pat, n));
    if CountsFit(pat) {
      CountsFitTail(pat, w);
    }
    if TokenFits(pat) && CountsFit(pat[w..]) {
      forall i | 0 <= i < w && ReadCount(pat[i..]).Some? ensures CountFits(pat, i) {
        CountInToken(pat, i);
      }
      CountsFitBefore(pat, w);
    }
  }

  /** Token by token, every count may stand where it stands. */
  predicate TokensFit(pat: string)
    decreases |pat|
  {
    pat == "" || (TokenFits(pat) && TokensFit(pat[TokenWidth(pat)..]))
  }

  lemma {:induction false} CountsFitTokens(pat: string)
    requires ReadCount(pat).None? && CountsFit(pat)
    ensures TokensFit(pat)
    decreases |pat|
  {
    if pat != "" {
      CountsFitStep(pat);
      CountsFitTokens(pat[TokenWidth(pat)..]);
    }
  }

  /** Reading the emitted text back gives the items of the pattern, or fails on a count that does not fit. */
  lemma {:induction false} ReadBody(pat: string)
    requires '\\' !in pat && ReadCount(pat).None?
    ensures Read(Body(pat)) == if CountsFit(pat) then Some(Items(pat) + [End]) else None
    decreases |pat|
  {
    if pat == "" {
      ReadEnd();
      assert Body(pat) == "$";
      assert Items(pat) + [End] == [End];
    } else {
      var rest := pat[TokenWidth(pat)..];
      var n := TokenItem(pat);
      CountsFitStep(pat);
      if TokenFits(pat) {
        ReadBody(rest);
        ReadStep(Body(pat), [FirstItem(pat)], n, Body(rest));
        assert Items(pat) + [End] == [FirstItem(pat)] + (Items(rest) + [End]);
      }
    }
  }

  lemma ReadEnd()
    ensures Read("$") == Some([End])
  {
    assert ReadHead("$") == Some((End, 1));
    assert "$"[1..] == "";
    assert ReadItem("$") == Some(([End], 1));
    assert [End] + [] == [End];
  }

  lemma AnchoredItem(pat: string, text: string)
    requires ReadCount(pat).Some? && text == "^" + Body(pat)
    ensures ReadItem(text) == if CountFits(pat, 0) then Some((Anchor(pat), 1 + AnchorWidth(pat))) else None
  {
    assert text[1..] == Body(pat) && pat[0..] == pat;
    BodyRepetition(pat);
    BodyStacked(pat);
    ItemAt(text, Begin, 1, ReadCount(pat), ReadCount(pat[AnchorWidth(pat)..]).Some?);
  }

  lemma AnchoredRest(pat: string, text: string)
    requires ReadCount(pat).Some? && text == "^" + Body(pat)
    ensures 1 + AnchorWidth(pat) <= |text| && text[1 + AnchorWidth(pat)..] == Body(pat[AnchorWidth(pat)..])
  {
    var m := AnchorWidth(pat);
    assert pat[0..] == pat;
    BodyCount(pat, 0);
    assert text[1 + m..] == Body(pat)[m..];
  }

  lemma CountsFitAnchored(pat: string)
    requires ReadCount(pat).Some?
    ensures CountsFit(pat) <==> CountFits(pat, 0) && CountsFit(pat[AnchorWidth(pat)..])
  {
    var m := AnchorWidth(pat);
    assert pat[0..] == pat;
    ReadCountShape(pat);
    forall i | 0 < i < m ensures ReadCount(pat[i..]).None? {
      assert pat[i..][0] == pat[i];
    }
    if CountFits(pat, 0) && CountsFit(pat[m..]) {
      CountsFitBefore(pat, m);
    }
    if CountsFit(pat) {
      CountsFitTail(pat, m);
    }
  }

  lemma PlainItem(pat: string, text: string)
    requires ReadCount(pat).None? && text == "^" + Body(pat)
    ensures text[1..] == Body(pat) && ReadItem(text) == Some(([Begin], 1))
  {
    assert text[1..] == Body(pat);
    BodyRepetition(pat);
    BodyStacked(pat);
    ItemAt(text, Begin, 1, None, false);
  }

  /** The anchor is read first, with the count that repeats it. */
  lemma AnchorItem(pat: string, text: string) returns (fits: bool)
    requires text == "^" + Body(pat)
    ensures fits ==> && ReadItem(text) == Some((Anchor(pat), 1 + AnchorWidth(pat)))
                     && text[1 + AnchorWidth(pat)..] == Body(pat[AnchorWidth(pat)..])
    ensures !fits ==> ReadItem(text).None?
    ensures CountsFit(pat) <==> fits && CountsFit(pat[AnchorWidth(pat)..])
    ensures fits ==> ReadCount(pat[AnchorWidth(pat)..]).None?
  {
    assert pat[0..] == pat;
    if ReadCount(pat).Some? {
      fits := CountFits(pat, 0);
      AnchoredItem(pat, text);
      AnchoredRest(pat, text);
      CountsFitAnchored(pat);
    } else {
      fits := true;
      PlainItem(pat, text);
    }
  }

  lemma ReadFails(text: string)
    requires text != "" && ReadItem(text).None?
    ensures Read(text).None?
  {
  }

  lemma ReadWhole(pat: string, text: string)
    requires '\\' !in pat && text == "^" + Body(pat)
    ensures Read(text) == if CountsFit(pat) then Some(Expression(pat)) else None
  {
    var rest := pat[AnchorWidth(pat)..];
    var fits := AnchorItem(pat, text);
    if fits {
      ReadBody(rest);
      ReadStep(text, Anchor(pat), 1 + AnchorWidth(pat), Body(rest));
      assert Anchor(pat) + (Items(rest) + [End]) == Expression(pat);
    } else {
      ReadFails(text);
    }
  }

  /**
   The emitted text is an expression exactly when the counts fit, and then has one item per token between
   its anchors.
   */
  lemma ReadTranslation(pat: string)
    requires '\\' !in pat
    ensures Read("^" + Concat(Pieces(pat)) + "$") == if CountsFit(pat) then Some(Expression(pat)) else None
  {
    var text := "^" + Concat(Pieces(pat)) + "$";
    assert text == "^" + Body(pat);
    ReadWhole(pat, text);
  }

  // ---------- patterns without counted repetition ----------

  lemma NoCountTail(pat: string, n: nat)
    requires n <= |pat| && !HasCount(pat)
    ensures !HasCount(pat[n..]) && ReadCount(pat[n..]).None?
  {
    var tail := pat[n..];
    forall i | 0 <= i < |tail| ensures ReadCount(tail[i..]).None? {
      assert tail[i..] == pat[n + i..];
    }
    assert tail != "" ==> tail[0..] == tail;
  }

  lemma NoCountsFit(pat: string)
    requires !HasCount(pat)
    ensures CountsFit(pat) && Expression(pat) == [Begin] + Items(pat) + [End]
  {
    NoCountTail(pat, 0);
    assert pat[0..] == pat;
  }

  // ---------- counts in concatenations ----------

  /** A text that no count before it can run into, and that none begins. */
  predicate StopsCount(b: string) {
    b != "" && !IsCountChar(b[0]) && b[0] != '{'
  }

  lemma {:induction false} BoundsBefore(a: string, b: string, p: Progress)
    requires StopsCount(b)
    ensures ReadBounds(a + b, p) == ReadBounds(a, p)
  {
    if a == "" {
      assert a + b == b;
    } else {
      assert (a + b)[1..] == a[1..] + b;
      if IsCountChar(a[0]) {
        BoundsBefore(a[1..], b, Further(p, a[0]));
      }
    }
  }

  lemma ReadCountBefore(a: string, b: string)
    requires StopsCount(b)
    ensures ReadCount(a + b) == ReadCount(a)
  {
    if a == "" {
      assert a + b == b;
    } else {
      assert (a + b)[1..] == a[1..] + b;
      BoundsBefore(a[1..], b, InMin(""));
    }
  }

  lemma CountBefore(a: string, b: string, i: nat)
    requires StopsCount(b) && i <= |a|
    ensures ReadCount((a + b)[i..]) == ReadCount(a[i..])
  {
    assert (a + b)[i..] == a[i..] + b;
    ReadCountBefore(a[i..], b);
  }

  lemma TokenBefore(a: string, b: string)
    requires StopsCount(b) && b[0] != '*' && a != ""
    ensures FirstItem(a + b) == FirstItem(a) && TokenWidth(a + b) == TokenWidth(a)
  {
    assert OpensDouble(a + b) == OpensDouble(a);
    CountBefore(a, b, 1);
    CountBefore(a, b, StarsWidth(a));
  }

  /** The items of two texts side by side, when neither a star nor a count runs over the seam. */
  lemma {:induction false} ItemsBefore(a: string, b: string)
    requires StopsCount(b) && (a == "" || b[0] != '*')
    ensures Items(a + b) == Items(a) + Items(b)
    decreases |a|
  {
    if a == "" {
      assert a + b == b;
    } else {
      var next := a[TokenWidth(a)..];
      TokenBefore(a, b);
      assert (a + b)[TokenWidth(a)..] == next + b;
      ItemsBefore(next, b);
      assert [FirstItem(a)] + (Items(next) + Items(b)) == ([FirstItem(a)] + Items(next)) + Items(b);
    }
  }

  lemma AnchorBefore(a: string, b: string)
    requires StopsCount(b)
    ensures Anchor(a + b) == Anchor(a) && AnchorWidth(a + b) == AnchorWidth(a)
  {
    ReadCountBefore(a, b);
  }

  lemma CountFitsBefore(a: string, b: string, i: nat)
    requires StopsCount(b) && i < |a| && ReadCount(a[i..]).Some? && ReadCount((a + b)[i..]).Some?
    ensures CountFits(a + b, i) <==> CountFits(a, i)
  {
    CountBefore(a, b, i);
    CountBefore(a, b, i + ReadCount(a[i..]).value.1);
  }

  lemma CountsFitFront(a: string, b: string)
    requires StopsCount(b) && CountsFit(a + b)
    ensures CountsFit(a)
  {
    forall i | 0 <= i < |a| && ReadCount(a[i..]).Some? ensures CountFits(a, i) {
      CountBefore(a, b, i);
      CountFitsBefore(a, b, i);
    }
  }

  lemma NoBraceNoCount(s: string, i: nat)
    requires '{' !in s && i <= |s|
    ensures ReadCount(s[i..]).None?
  {
    assert i < |s| ==> s[i..][0] == s[i];
  }

  /** A text without brace holds no count, and behind another text it changes none. */
  lemma CountInBack(a: string, b: string, i: nat)
    requires '{' !in b && |a| <= i <= |a + b|
    ensures ReadCount((a + b)[i..]).None?
  {
    assert (a + b)[i..] == b[i - |a|..];
    NoBraceNoCount(b, i - |a|);
  }

  lemma AppendCounts(a: string, b: string)
    requires StopsCount(b) && '{' !in b
    ensures CountsFit(a + b) <==> CountsFit(a)
    ensures HasCount(a + b) <==> HasCount(a)
  {
    forall i | 0 <= i < |a + b|
      ensures if i < |a| then ReadCount((a + b)[i..]) == ReadCount(a[i..]) else ReadCount((a + b)[i..]).None?
    {
      if i < |a| {
        CountBefore(a, b, i);
      } else {
        CountInBack(a, b, i);
      }
    }
    if CountsFit(a + b) {
      CountsFitFront(a, b);
    }
    if CountsFit(a) {
      forall i | 0 <= i < |a + b| && ReadCount((a + b)[i..]).Some? ensures CountFits(a + b, i) {
        CountFitsBefore(a, b, i);
      }
    }
  }

  lemma CountFitsBehind(u: string, b: string, i: nat)
    requires u != "" && u[|u| - 1] == '/' && i < |b| && ReadCount(b[i..]).Some? && ReadCount((u + b)[|u| + i..]).Some?
    ensures CountFits(u + b, |u| + i) <==> CountFits(b, i)
  {
    assert (u + b)[|u| + i..] == b[i..];
    var m := ReadCount(b[i..]).value.1;
    assert (u + b)[|u| + i + m..] == b[i + m..];
    assert (u + b)[|u| + i - 1] == if i == 0 then '/' else b[i - 1];
  }

  lemma CountInFront(u: string, b: string, i: nat)
    requires '{' !in u && i < |u|
    ensures ReadCount((u + b)[i..]).None?
  {
    assert (u + b)[i..][0] == u[i];
  }

  lemma CountBehind(u: string, b: string, i: nat)
    requires i <= |b|
    ensures ReadCount((u + b)[|u| + i..]) == ReadCount(b[i..])
  {
    assert (u + b)[|u| + i..] == b[i..];
  }

  lemma PrependFits(u: string, b: string)
    requires u != "" && u[|u| - 1] == '/' && '{' !in u
    ensures CountsFit(u + b) <==> CountsFit(b)
  {
    var whole, n := u + b, |u|;
    forall i | 0 <= i < n ensures ReadCount(whole[i..]).None? {
      CountInFront(u, b, i);
    }
    if CountsFit(b) {
      forall i | 0 <= i < |whole| && ReadCount(whole[i..]).Some? ensures CountFits(whole, i) {
        CountBehind(u, b, i - n);
        CountFitsBehind(u, b, i - n);
      }
    }
    if CountsFit(whole) {
      forall i | 0 <= i < |b| && ReadCount(b[i..]).Some? ensures CountFits(b, i) {
        CountBehind(u, b, i);
        CountFitsBehind(u, b, i);
      }
    }
  }

  lemma PrependHas(u: string, b: string)
    requires '{' !in u
    ensures HasCount(u + b) <==> HasCount(b)
  {
    var whole, n := u + b, |u|;
    if HasCount(b) {
      var i :| 0 <= i < |b| && ReadCount(b[i..]).Some?;
      CountBehind(u, b, i);
    }
    if HasCount(whole) {
      var i :| 0 <= i < |whole| && ReadCount(whole[i..]).Some?;
      if i < n {
        CountInFront(u, b, i);
      } else {
        CountBehind(u, b, i - n);
      }
    }
  }

  /** Behind a slash the counts of a text fit as they do alone. */
  lemma PrependCounts(u: string, b: string)
    requires u != "" && u[|u| - 1] == '/' && '{' !in u
    ensures CountsFit(u + b) <==> CountsFit(b)
    ensures HasCount(u + b) <==> HasCount(b)
  {
    PrependFits(u, b);
    PrependHas(u, b);
  }

  // ---------- slash normalisation ----------

  lemma SlashFree(s: string)
    requires '\\' !in s
    ensures ToSlash(s) == s
  {
  }

  lemma SlashedHasNoBackslash(s: string)
    ensures '\\' !in ToSlash(s)
    ensures '\n' in ToSlash(s) <==> '\n' in s
    ensures '|' in ToSlash(s) <==> '|' in s
  {
    forall c | c == '\n' || c == '|' ensures c in ToSlash(s) <==> c in s {
      if c in s {
        var i :| 0 <= i < |s| && s[i] == c;
        assert ToSlash(s)[i] == c;
      }
    }
  }

  lemma {:induction false} BoundsSlash(s: string, p: Progress)
    ensures ReadBounds(ToSlash(s), p) == ReadBounds(s, p)
  {
    if s != "" {
      assert ToSlash(s)[1..] == ToSlash(s[1..]);
      if IsCountChar(s[0]) {
        BoundsSlash(s[1..], Further(p, s[0]));
      }
    }
  }

  lemma ReadCountSlash(s: string)
    ensures ReadCount(ToSlash(s)) == ReadCount(s)
  {
    if s != "" {
      assert ToSlash(s)[1..] == ToSlash(s[1..]);
      BoundsSlash(s[1..], InMin(""));
    }
  }

  lemma CountSlashAt(s: string, i: nat)
    requires i <= |s|
    ensures ReadCount(ToSlash(s)[i..]) == ReadCount(s[i..])
  {
    assert ToSlash(s)[i..] == ToSlash(s[i..]);
    ReadCountSlash(s[i..]);
  }

  lemma CountFitsSlash(s: string, i: nat)
    requires i <= |s| && ReadCount(s[i..]).Some? && ReadCount(ToSlash(s)[i..]).Some?
    ensures CountFits(ToSlash(s), i) <==> CountFits(s, i)
  {
    CountSlashAt(s, i);
    CountSlashAt(s, i + ReadCount(s[i..]).value.1);
  }

  lemma CountsSlash(s: string)
    ensures CountsFit(ToSlash(s)) <==> CountsFit(s)
    ensures HasCount(ToSlash(s)) <==> HasCount(s)
  {
    var t := ToSlash(s);
    forall i | 0 <= i <= |s| ensures ReadCount(t[i..]) == ReadCount(s[i..]) {
      CountSlashAt(s, i);
    }
    forall i | 0 <= i < |s| && ReadCount(s[i..]).Some? ensures CountFits(t, i) <==> CountFits(s, i) {
      CountFitsSlash(s, i);
    }
  }

  // ---------- which patterns compile ----------

  /** CompileGlob succeeds exactly on the patterns globRe accepts, slash-normalised, whose counts fit. */
  lemma CompiledForm(pat: string)
    ensures var p := ToSlash(pat);
            Compile(pat) == if !Accepted(p) then InvalidGlob(p)
                            else if !CountsFit(p) then BadRegex("^" + Concat(Pieces(p)) + "$")
                            else Compiled(Glob(p, Expression(p)))
    ensures Compile(pat).Compiled? <==> GlobReMatches(ToSlash(pat)) && CountsFit(pat)
  {
    CountsSlash(pat);
    SlashedHasNoBackslash(pat);
    ReadTranslation(ToSlash(pat));
    GlobReAccepts(ToSlash(pat));
  }

  // ---------- runs of stars ----------

  function Repeat<T>(x: T, n: nat): (s: seq<T>)
    ensures |s| == n && forall i :: 0 <= i < n ==> s[i] == x
  {
    seq(n, _ => x)
  }

  lemma RepeatTwo<T>(x: T, n: nat)
    ensures Repeat(x, n + 2) == [x, x] + Repeat(x, n)
  {
  }

  lemma PiecesAfterTwoStars(rest: string)
    ensures Pieces(['*', '*'] + rest) == [".*"] + Pieces(rest)
  {
    assert (['*', '*'] + rest)[2..] == rest;
  }

  lemma PiecesAfterOneStar(rest: string)
    requires !StartsWith(rest, '*')
    ensures Pieces(['*'] + rest) == ["[^/]*"] + Pieces(rest)
  {
    assert (['*'] + rest)[1..] == rest;
  }

  /** The pieces of a run of n stars. */
  function StarPieces(n: nat): seq<string> {
    Repeat(".*", n / 2) + if n % 2 == 1 then ["[^/]*"] else []
  }

  lemma StarPiecesTwo(n: nat)
    ensures StarPieces(n + 2) == [".*"] + StarPieces(n)
  {
    assert (n + 2) / 2 == n / 2 + 1;
    assert Repeat(".*", n / 2 + 1) == [".*"] + Repeat(".*", n / 2);
  }

  lemma StarsSplit(n: nat, rest: string)
    requires n >= 2
    ensures Repeat('*', n) + rest == ['*', '*'] + (Repeat('*', n - 2) + rest)
  {
    RepeatTwo('*', n - 2);
  }

  lemma StarRunShort(n: nat, rest: string)
    requires n < 2 && !StartsWith(rest, '*')
    ensures Pieces(Repeat('*', n) + rest) == StarPieces(n) + Pieces(rest)
  {
    if n == 0 {
      assert Repeat('*', 0) + rest == rest;
      assert StarPieces(0) == [];
    } else {
      assert Repeat('*', 1) + rest == ['*'] + rest;
      PiecesAfterOneStar(rest);
      assert StarPieces(1) == ["[^/]*"];
    }
  }

  lemma ConsConcat<T>(x: T, a: seq<T>, b: seq<T>)
    ensures [x] + (a + b) == ([x] + a) + b
  {
  }

  lemma PiecesOfTwoStars(whole: string, fewer: string)
    requires whole == ['*', '*'] + fewer
    ensures Pieces(whole) == [".*"] + Pieces(fewer)
  {
    PiecesAfterTwoStars(fewer);
  }

  /** A run of n stars tokenizes to n / 2 pieces `.*` and then, for odd n, one `[^/]*`. */
  lemma {:induction false} StarRun(n: nat, rest: string)
    requires !StartsWith(rest, '*')
    ensures Pieces(Repeat('*', n) + rest) == StarPieces(n) + Pieces(rest)
  {
    if n < 2 {
      StarRunShort(n, rest);
    } else {
      StarsSplit(n, rest);
      PiecesOfTwoStars(Repeat('*', n) + rest, Repeat('*', n - 2) + rest);
      StarRun(n - 2, rest);
      StarPiecesTwo(n - 2);
      ConsConcat(".*", StarPieces(n - 2), Pieces(rest));
    }
  }
}
