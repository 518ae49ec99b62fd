/** Splitting and joining on a separator, as Go's strings package does it. Generic in the element type. */
module Text {

  /** strings.Split on a one-element separator: always at least one part. */
  function Split<T(==)>(s: seq<T>, c: T): (parts: seq<seq<T>>)
    ensures |parts| > 0
    ensures forall part :: part in parts ==> c !in part
  {
    if s == [] then [[]]
    else if s[0] == c then [[]] + Split(s[1..], c)
    else
      var rest := Split(s[1..], c);
      [[s[0]] + rest[0]] + rest[1..]
  }

  /** strings.Join. */
  function Join<T>(parts: seq<seq<T>>, c: T): (s: seq<T>) {
    if parts == [] then []
    else if |parts| == 1 then parts[0]
    else parts[0] + [c] + Join(parts[1..], c)
  }

  predicate HasPrefix<T(==)>(s: seq<T>, prefix: seq<T>) {
    prefix <= s
  }

  predicate StartsWith<T(==)>(s: seq<T>, c: T) {
    s != [] && s[0] == c
  }

  /** Position of the last c, as strings.LastIndex gives it; -1 when there is none. */
  function LastIndex<T(==)>(s: seq<T>, c: T): (n: int)
    ensures -1 <= n < |s|
    ensures n >= 0 ==> s[n] == c
    ensures forall i :: n < i < |s| ==> s[i] != c
  {
    if s == [] then -1
    else if s[|s| - 1] == c then |s| - 1
    else LastIndex(s[..|s| - 1], c)
  }

  /** Splitting at a separator that is really there splits both sides independently. */
  lemma {:induction false} SplitConcat<T>(a: seq<T>, c: T, b: seq<T>)
    ensures Split(a + [c] + b, c) == Split(a, c) + Split(b, c)
  {
    var whole := a + [c] + b;
    if a == [] {
      assert whole[1..] == b;
    } else {
      assert whole[1..] == a[1..] + [c] + b;
      SplitConcat(a[1..], c, b);
    }
  }

  lemma {:induction false} SplitWhole<T>(s: seq<T>, c: T)
    requires c !in s
    ensures Split(s, c) == [s]
  {
    if s != [] {
      SplitWhole(s[1..], c);
      assert s == [s[0]] + s[1..];
    }
  }

  /** Split undoes Join on parts free of the separator. */
  lemma {:induction false} SplitJoin<T>(parts: seq<seq<T>>, c: T)
    requires parts != []
    requires forall part :: part in parts ==> c !in part
    ensures Split(Join(parts, c), c) == parts
  {
    if |parts| == 1 {
      SplitWhole(parts[0], c);
    } else {
      SplitConcat(parts[0], c, Join(parts[1..], c));
      SplitWhole(parts[0], c);
      SplitJoin(parts[1..], c);
      assert [parts[0]] + parts[1..] == parts;
    }
  }

  lemma {:induction false} JoinConcat<T>(a: seq<seq<T>>, b: seq<seq<T>>, c: T)
    requires a != [] && b != []
    ensures Join(a + b, c) == Join(a, c) + [c] + Join(b, c)
  {
    if |a| == 1 {
      assert (a + b)[1..] == b;
    } else {
      assert (a + b)[1..] == a[1..] + b;
      JoinConcat(a[1..], b, c);
    }
  }

  /** Join undoes Split, so Split loses nothing. */
  lemma {:induction false} JoinSplit<T>(s: seq<T>, c: T)
    ensures Join(Split(s, c), c) == s
  {
    if s == [] {
    } else {
      var rest := Split(s[1..], c);
      JoinSplit(s[1..], c);
      assert s == [s[0]] + s[1..];
      if s[0] == c {
        assert Split(s, c)[1..] == rest;
      } else {
        var parts := Split(s, c);
        assert parts[1..] == rest[1..];
        if |rest| == 1 {
          assert Join(rest, c) == rest[0];
        } else {
          assert [s[0]] + (rest[0] + [c] + Join(rest[1..], c)) == parts[0] + [c] + Join(parts[1..], c);
        }
      }
    }
  }
}
