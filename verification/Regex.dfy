/**
 The part of Go's regexp language that a translated glob can use: how its text is read, when it is
 refused, and what it matches. The reader answers None on a text that the regexp package refuses, and
 on every construct that no translated glob contains.
 */
module Regex {
  import opened Options
  import opened Numbers
  import opened Text

  /** What one character position may hold. */
  datatype Atom = Lit(c: char) | NotChar(c: char) | Dot

  /** How often an item repeats: at least min times, and at most max times if there is a max. */
  datatype Bounds = Bounds(min: nat, max: Option<nat>)

  /** A regular expression is a flat list of items; Bar separates its alternatives. */
  datatype Item = Begin | End | Bar | One(a: Atom) | Times(a: Atom, bounds: Bounds)

  /** The largest count that the regexp package accepts. */
  const MAX_REPEAT := 1000

  function Star(a: Atom): Item {
    Times(a, Bounds(0, None))
  }

  predicate IsDigit(c: char) {
    '0' <= c <= '9'
  }

  /** ASCII punctuation: what a backslash turns into the character itself. */
  predicate IsPunctuation(c: char) {
    '!' <= c <= '/' || ':' <= c <= '@' || '[' <= c <= '`' || '{' <= c <= '~'
  }

  // ---------- counted repetition ----------

  /** The characters that can follow the opening brace of a counted repetition. */
  predicate IsCountChar(c: char) {
    IsDigit(c) || c == ',' || c == '}'
  }

  /** A decimal number without leading zeros. */
  predicate IsNumber(digits: string) {
    digits != "" && (|digits| == 1 || digits[0] != '0')
  }

  /** How far a counted repetition is read: the digits of its minimum, or behind the comma those of its maximum. */
  datatype Progress = InMin(digits: string) | InMax(min: nat, digits: string)

  /** What a digit or the comma does to it. */
  function Further(p: Progress, c: char): Progress {
    if IsDigit(c) then p.(digits := p.digits + [c]) else InMax(Value(p.digits, 10), "")
  }

  function OneLonger(r: Option<(Bounds, nat)>): Option<(Bounds, nat)> {
    if r.Some? then Some((r.value.0, r.value.1 + 1)) else None
  }

  /** The rest of a counted repetition up to its closing brace, and its length. */
  function ReadBounds(run: string, p: Progress): (r: Option<(Bounds, nat)>)
    ensures r.Some? ==> (if p == InMin("") then 2 else 1) <= r.value.1 <= |run|
  {
    if run == "" then None
    else if IsDigit(run[0]) || (run[0] == ',' && p.InMin? && IsNumber(p.digits)) then
      OneLonger(ReadBounds(run[1..], Further(p, run[0])))
    else if run[0] == '}' && p.InMin? && IsNumber(p.digits) then
      Some((Bounds(Value(p.digits, 10), Some(Value(p.digits, 10))), 1))
    else if run[0] == '}' && p.InMax? && p.digits == "" then Some((Bounds(p.min, None), 1))
    else if run[0] == '}' && p.InMax? && IsNumber(p.digits) then
      Some((Bounds(p.min, Some(Value(p.digits, 10))), 1))
    else None
  }

  /** A counted repetition `{n}`, `{n,}` or `{n,m}` at the front of a text, and its length; other braces are literal. */
  function ReadCount(text: string): (r: Option<(Bounds, nat)>)
    ensures r.Some? ==> 3 <= r.value.1 <= |text| && text[0] == '{'
  {
    if StartsWith(text, '{') then OneLonger(ReadBounds(text[1..], InMin(""))) else None
  }

  lemma {:induction false} ReadBoundsShape(run: string, p: Progress)
    requires ReadBounds(run, p).Some?
    ensures forall i :: 0 <= i < ReadBounds(run, p).value.1 ==> IsCountChar(run[i])
    ensures p == InMin("") ==> IsDigit(run[0])
    decreases run
  {
    var n := ReadBounds(run, p).value.1;
    if n > 1 {
      ReadBoundsShape(run[1..], Further(p, run[0]));
      assert forall i :: 0 < i < n ==> run[i] == run[1..][i - 1];
    }
  }

  /** Inside a counted repetition there are digits, commas and braces only, a digit first. */
  lemma ReadCountShape(text: string)
    requires ReadCount(text).Some?
    ensures forall i :: 0 < i < ReadCount(text).value.1 ==> IsCountChar(text[i])
    ensures IsDigit(text[1])
  {
    ReadBoundsShape(text[1..], InMin(""));
    assert forall i :: 0 < i < |text| ==> text[i] == text[1..][i - 1];
  }

  predicate BoundsFit(bounds: Bounds) {
    bounds.min <= MAX_REPEAT && (bounds.max.Some? ==> bounds.min <= bounds.max.value <= MAX_REPEAT)
  }

  // ---------- reading ----------

  /** The first item of a text, without its repetition sign, and how many characters it takes. */
  function ReadHead(text: string): (r: Option<(Item, nat)>)
    requires text != ""
    ensures r.Some? ==> 0 < r.value.1 <= |text|
  {
    var c := text[0];
    if c == '^' then Some((Begin, 1))
    else if c == '$' then Some((End, 1))
    else if c == '|' then Some((Bar, 1))
    else if c == '.' then Some((One(Dot), 1))
    else if c == '\\' then
      if |text| > 1 && IsPunctuation(text[1]) then Some((One(Lit(text[1])), 2)) else None
    else if c == '[' then
      if |text| > 3 && text[1] == '^' && text[2] !in "\\[]" && text[3] == ']'
      then Some((One(NotChar(text[2])), 4)) else None
    else if c in "*+?()" then None
    else if ReadCount(text).Some? then None
    else Some((One(Lit(c)), 1))
  }

  /** The repetition sign at the front of a text. */
  function ReadRepetition(text: string): (r: Option<(Bounds, nat)>)
    ensures r.Some? ==> 0 < r.value.1 <= |text|
  {
    if StartsWith(text, '*') then Some((Bounds(0, None), 1)) else ReadCount(text)
  }

  /** Does another repetition sign follow the one at the front? */
  predicate IsStacked(text: string) {
    var repetition := ReadRepetition(text);
    repetition.Some? && ReadRepetition(text[repetition.value.1..]).Some?
  }

  /** A repeated item; an anchor holds as often as it is asked for, so only its absence counts. */
  function Repeated(item: Item, bounds: Bounds): seq<Item> {
    if item.One? then [Times(item.a, bounds)] else if bounds.min == 0 then [] else [item]
  }

  function Prepend(front: seq<Item>, rest: Option<seq<Item>>): Option<seq<Item>> {
    match rest
    case None => None
    case Some(items) => Some(front + items)
  }

  /** An item of n characters with the repetition sign behind it, if there is one; stacked when another sign follows. */
  function Attach(item: Item, n: nat, repetition: Option<(Bounds, nat)>, stacked: bool): Option<(seq<Item>, nat)> {
    match repetition
    case None => Some(([item], n))
    case Some((bounds, m)) =>
      if item.Bar? || !BoundsFit(bounds) || stacked then None else Some((Repeated(item, bounds), n + m))
  }

  /**
   One item with its repetition sign, and how many characters both take; None when the repetition has
   nothing to repeat, is out of bounds or is repeated itself.
   */
  function ReadItem(text: string): (r: Option<(seq<Item>, nat)>)
    requires text != ""
    ensures r.Some? ==> 0 < r.value.1 <= |text|
  {
    match ReadHead(text)
    case None => None
    case Some((item, n)) =>
      var rest := text[n..];
      Attach(item, n, ReadRepetition(rest), IsStacked(rest))
  }

  /** The items a text denotes. */
  function Read(text: string): Option<seq<Item>>
    decreases |text|
  {
    if text == "" then Some([])
    else match ReadItem(text)
      case None => None
      case Some((front, n)) => Prepend(front, Read(text[n..]))
  }

  // ---------- matching ----------

  /** `.` is any character but a newline; a negated class does contain the newline. */
  predicate AtomAllows(a: Atom, c: char) {
    match a
    case Lit(d) => c == d
    case NotChar(d) => c != d
    case Dot => c != '\n'
  }

  /** Every character from i up to k fits the atom. */
  predicate AllowsRun(a: Atom, s: string, i: nat, k: nat)
    requires i <= k <= |s|
  {
    forall j :: i <= j < k ==> AtomAllows(a, s[j])
  }

  predicate InBounds(bounds: Bounds, n: int) {
    bounds.min <= n && (bounds.max.Some? ==> n <= bounds.max.value)
  }

  /** Can these items (one alternative) match the subject from position i on, ending anywhere? */
  predicate MatchesFrom(items: seq<Item>, s: string, i: nat)
    requires i <= |s|
    decreases items
  {
    items == [] ||
    match items[0]
    case Begin => i == 0 && MatchesFrom(items[1..], s, i)
    case End => i == |s| && MatchesFrom(items[1..], s, i)
    case Bar => false
    case One(a) => i < |s| && AtomAllows(a, s[i]) && MatchesFrom(items[1..], s, i + 1)
    case Times(a, bounds) =>
      exists k :: i <= k <= |s| && InBounds(bounds, k - i) && AllowsRun(a, s, i, k) && MatchesFrom(items[1..], s, k)
  }

  predicate AlternativeMatches(alternative: seq<Item>, s: string) {
    exists i :: 0 <= i <= |s| && MatchesFrom(alternative, s, i)
  }

  /** Regexp.MatchString: some alternative matches somewhere in the subject. */
  predicate MatchString(items: seq<Item>, s: string) {
    exists alternative :: alternative in Split(items, Bar) && AlternativeMatches(alternative, s)
  }
}
