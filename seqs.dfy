/** Generic sequence operations that stand for the iterator adaptors the
    program uses: `collect` of string pieces, `take`, `skip` and
    `intersperse`, and the subsequence order that `filter` keeps. */
module Seqs {

  function Min(a: int, b: int): int
  {
    if a <= b then a else b
  }

  /** Concatenation of pieces, as `collect::<String>()` does it. */
  function Concat<T>(parts: seq<seq<T>>): seq<T>
  {
    if parts == [] then [] else parts[0] + Concat(parts[1..])
  }

  lemma {:induction false} ConcatAppend<T>(a: seq<seq<T>>, b: seq<seq<T>>)
    ensures Concat(a + b) == Concat(a) + Concat(b)
  {
    if a == [] {
      assert a + b == b;
    } else {
      assert (a + b)[1..] == a[1..] + b;
      ConcatAppend(a[1..], b);
    }
  }

  /** `Iterator::take(n)`: the first `n` elements, or all of them when there are fewer. */
  function Take<T>(s: seq<T>, n: nat): seq<T>
  {
    s[..Min(n, |s|)]
  }

  /** `Iterator::skip(n)`: what is left after the first `n` elements. */
  function Skip<T>(s: seq<T>, n: nat): seq<T>
  {
    s[Min(n, |s|)..]
  }

  /** Skipping twice is skipping the sum. */
  lemma SkipSkip<T>(s: seq<T>, m: nat, n: nat)
    ensures Skip(Skip(s, m), n) == Skip(s, m + n)
  {
  }

  /** `Iterator::intersperse(sep)`: `sep` between every two neighbours. */
  function Intersperse<T>(s: seq<T>, sep: T): seq<T>
  {
    if |s| <= 1 then s else [s[0], sep] + Intersperse(s[1..], sep)
  }

  lemma {:induction false} IntersperseLength<T>(s: seq<T>, sep: T)
    requires s != []
    ensures |Intersperse(s, sep)| == 2 * |s| - 1
  {
    if |s| > 1 {
      IntersperseLength(s[1..], sep);
    }
  }

  /** Element `i` of `s` sits at position `2 * i` of the interspersed sequence. */
  lemma {:induction false} IntersperseEven<T>(s: seq<T>, sep: T, i: nat)
    requires i < |s|
    ensures 2 * i < |Intersperse(s, sep)| && Intersperse(s, sep)[2 * i] == s[i]
  {
    IntersperseLength(s, sep);
    if i > 0 {
      IntersperseEven(s[1..], sep, i - 1);
      assert Intersperse(s, sep) == [s[0], sep] + Intersperse(s[1..], sep);
    }
  }

  /** Between elements `i` and `i + 1` of `s` stands the separator. */
  lemma {:induction false} IntersperseOdd<T>(s: seq<T>, sep: T, i: nat)
    requires i + 1 < |s|
    ensures 2 * i + 1 < |Intersperse(s, sep)| && Intersperse(s, sep)[2 * i + 1] == sep
  {
    IntersperseLength(s, sep);
    assert Intersperse(s, sep) == [s[0], sep] + Intersperse(s[1..], sep);
    if i > 0 {
      IntersperseOdd(s[1..], sep, i - 1);
    }
  }

  /** Every other element, starting with the first. */
  function Evens<T>(s: seq<T>): seq<T>
  {
    if |s| <= 2 then (if s == [] then [] else [s[0]]) else [s[0]] + Evens(s[2..])
  }

  /** Round trip: taking every other element undoes `Intersperse`. */
  lemma {:induction false} EvensIntersperse<T>(s: seq<T>, sep: T)
    ensures Evens(Intersperse(s, sep)) == s
  {
    if |s| > 1 {
      var t := Intersperse(s[1..], sep);
      assert Intersperse(s, sep) == [s[0], sep] + t;
      assert ([s[0], sep] + t)[2..] == t;
      IntersperseLength(s[1..], sep);
      EvensIntersperse(s[1..], sep);
      assert s == [s[0]] + s[1..];
    }
  }

  /** `a` is `b` with some elements dropped, order kept. */
  predicate IsSubsequence<T(==)>(a: seq<T>, b: seq<T>)
  {
    if a == [] then true
    else if b == [] then false
    else if a[0] == b[0] then IsSubsequence(a[1..], b[1..])
    else IsSubsequence(a, b[1..])
  }

  predicate IsPrefix<T(==)>(p: seq<T>, s: seq<T>)
  {
    |p| <= |s| && s[..|p|] == p
  }

  /** `u` occurs in `s` as a contiguous piece. */
  ghost predicate IsInfix<T>(u: seq<T>, s: seq<T>)
  {
    exists i, j :: 0 <= i <= j <= |s| && s[i..j] == u
  }
}
