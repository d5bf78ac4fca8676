/** Sequences: ends, reversal and concatenation. */
module Sequences {

  function Front<T>(s: seq<T>): seq<T>
    requires s != []
  {
    s[..|s| - 1]
  }

  function Last<T>(s: seq<T>): T
    requires s != []
  {
    s[|s| - 1]
  }

  lemma {:induction false} ConcatAssociative<T>(x: seq<T>, y: seq<T>, z: seq<T>)
    ensures x + (y + z) == x + y + z
  {
  }

  /** `s[::-1]`. */
  function Rev<T>(s: seq<T>): (r: seq<T>)
    ensures |r| == |s|
  {
    if s == [] then [] else [Last(s)] + Rev(Front(s))
  }

  lemma {:induction false} RevConcat<T>(a: seq<T>, b: seq<T>)
    ensures Rev(a + b) == Rev(b) + Rev(a)
    decreases |b|
  {
    if b == [] {
      assert a + b == a;
    } else {
      assert Front(a + b) == a + Front(b);
      RevConcat(a, Front(b));
    }
  }

  lemma {:induction false} RevCons<T>(x: T, rest: seq<T>)
    ensures Rev([x] + rest) == Rev(rest) + [x]
  {
    RevConcat([x], rest);
    assert Rev([x]) == [x] + Rev([]);
  }

  lemma {:induction false} RevRev<T>(a: seq<T>)
    ensures Rev(Rev(a)) == a
    decreases |a|
  {
    if a != [] {
      RevConcat([Last(a)], Rev(Front(a)));
      RevRev(Front(a));
      assert Rev([Last(a)]) == [Last(a)] + Rev([]);
    }
  }

  /** Taking a prefix of the reversed sequence is reversing a suffix. */
  lemma {:induction false} RevPrefix<T>(b: seq<T>, j: nat)
    requires j <= |b|
    ensures Rev(b)[..|b| - j] == Rev(b[j..])
  {
    assert b == b[..j] + b[j..];
    RevConcat(b[..j], b[j..]);
  }

  /** The first element becomes the last. */
  lemma {:induction false} RevEnds<T>(s: seq<T>)
    requires s != []
    ensures Rev(s)[0] == Last(s) && Last(Rev(s)) == s[0]
  {
    assert s == [s[0]] + s[1..];
    RevConcat([s[0]], s[1..]);
    assert Rev([s[0]]) == [s[0]] + Rev([]);
  }

  lemma {:induction false} RevAt<T>(s: seq<T>, i: nat)
    requires i < |s|
    ensures Rev(s)[i] == s[|s| - 1 - i]
    decreases |s|
  {
    if i > 0 {
      RevAt(Front(s), i - 1);
    }
  }
}
