/** Text as the program sees it: Rust strings are UTF-8, so their `len()` is a
    byte count, their order is byte order, and a grapheme split is supplied by
    the segmentation library. */
module Strings {
  import opened Seqs

  /** Number of bytes UTF-8 uses for one Unicode scalar value. */
  function Utf8Len(c: char): (n: nat)
    ensures 1 <= n <= 4
    ensures n == 1 <==> c as int < 0x80
  {
    if c as int < 0x80 then 1
    else if c as int < 0x800 then 2
    else if c as int < 0x1_0000 then 3
    else 4
  }

  /** `str::len()`: the length of the UTF-8 encoding. */
  function ByteLen(s: string): nat
  {
    if s == [] then 0 else Utf8Len(s[0]) + ByteLen(s[1..])
  }

  /** A string never has fewer bytes than scalar values, and has exactly as
      many when it is ASCII. */
  lemma {:induction false} ByteLenBounds(s: string)
    ensures |s| <= ByteLen(s) <= 4 * |s|
    ensures ByteLen(s) == |s| <==> forall i :: 0 <= i < |s| ==> s[i] as int < 0x80
  {
    if s != [] {
      ByteLenBounds(s[1..]);
      if ByteLen(s) == |s| {
        forall i | 0 <= i < |s|
          ensures s[i] as int < 0x80
        {
          if i > 0 {
            assert s[i] == s[1..][i - 1];
          }
        }
      }
      if forall i :: 0 <= i < |s| ==> s[i] as int < 0x80 {
        assert forall i :: 0 <= i < |s[1..]| ==> s[1..][i] == s[i + 1];
      }
    }
  }

  /** `g` is a grapheme split of `s`: its pieces spell `s` and none is empty.
      This is what `UnicodeSegmentation::graphemes(true)` guarantees. */
  predicate IsGraphemeSplit(g: seq<string>, s: string)
  {
    Concat(g) == s && forall i :: 0 <= i < |g| ==> g[i] != []
  }

  /** There are never more graphemes than scalar values, nor more scalar
      values than bytes. */
  lemma {:induction false} GraphemeCountBound(g: seq<string>, s: string)
    requires IsGraphemeSplit(g, s)
    ensures |g| <= |s| <= ByteLen(s)
  {
    ByteLenBounds(s);
    if g != [] {
      GraphemeCountBound(g[1..], Concat(g[1..]));
    }
  }

  /** Splitting a grapheme split at any index splits the string at a boundary. */
  lemma GraphemePrefix(g: seq<string>, s: string, k: nat)
    requires IsGraphemeSplit(g, s) && k <= |g|
    ensures IsPrefix(Concat(g[..k]), s)
    ensures s == Concat(g[..k]) + Concat(g[k..])
  {
    assert g == g[..k] + g[k..];
    ConcatAppend(g[..k], g[k..]);
  }

  predicate EndsWithNewline(s: string)
  {
    |s| > 0 && s[|s| - 1] == '\n'
  }

  /** The order of `str`: lexicographic on scalar values. Because UTF-8
      preserves the order of scalar values, this is also the byte order Rust
      compares strings by. */
  predicate StrLe(a: string, b: string)
  {
    if a == [] then true
    else if b == [] then false
    else if a[0] != b[0] then a[0] < b[0]
    else StrLe(a[1..], b[1..])
  }

  lemma {:induction false} StrLeReflexive(a: string)
    ensures StrLe(a, a)
  {
    if a != [] {
      StrLeReflexive(a[1..]);
    }
  }

  lemma {:induction false} StrLeTotal(a: string, b: string)
    ensures StrLe(a, b) || StrLe(b, a)
  {
    if a != [] && b != [] && a[0] == b[0] {
      StrLeTotal(a[1..], b[1..]);
    }
  }

  lemma {:induction false} StrLeAntisymmetric(a: string, b: string)
    requires StrLe(a, b) && StrLe(b, a)
    ensures a == b
  {
    if a != [] && b != [] {
      StrLeAntisymmetric(a[1..], b[1..]);
      assert a == [a[0]] + a[1..] && b == [b[0]] + b[1..];
    }
  }

  lemma {:induction false} StrLeTransitive(a: string, b: string, c: string)
    requires StrLe(a, b) && StrLe(b, c)
    ensures StrLe(a, c)
  {
    if a != [] && b != [] && c != [] && a[0] == b[0] && b[0] == c[0] {
      StrLeTransitive(a[1..], b[1..], c[1..]);
    }
  }
}
