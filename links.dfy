/** `find_links`: the URL matches found in the part of a description that
    truncation dropped are sorted, stripped of repeats and wrapped as empty
    HTML anchors that the notification daemon renders as links. */
module LinkHarvest {
  import opened Strings

  /** Every pair in order, by the string order `Vec<&str>::sort_unstable` uses. */
  predicate Sorted(s: seq<string>)
  {
    forall i, j :: 0 <= i < j < |s| ==> StrLe(s[i], s[j])
  }

  /** Sorted with no element twice. */
  predicate StrictlySorted(s: seq<string>)
  {
    forall i, j :: 0 <= i < j < |s| ==> StrLe(s[i], s[j]) && s[i] != s[j]
  }

  // ---------------------------------------------------------------------
  // Reference definition of sorting: insertion into a sorted sequence.

  function Insert(x: string, s: seq<string>): seq<string>
  {
    if s == [] || StrLe(x, s[0]) then [x] + s else [s[0]] + Insert(x, s[1..])
  }

  function Sort(s: seq<string>): seq<string>
  {
    if s == [] then [] else Insert(s[0], Sort(s[1..]))
  }

  lemma SortedCons(h: string, t: seq<string>)
    requires Sorted(t)
    requires forall y :: y in t ==> StrLe(h, y)
    ensures Sorted([h] + t)
  {
    var s := [h] + t;
    forall i, j | 0 <= i < j < |s|
      ensures StrLe(s[i], s[j])
    {
      if i > 0 {
        assert s[i] == t[i - 1] && s[j] == t[j - 1];
      } else {
        assert s[j] in t;
      }
    }
  }

  lemma {:induction false} InsertPermutes(x: string, s: seq<string>)
    ensures multiset(Insert(x, s)) == multiset(s) + multiset{x}
  {
    if s != [] && !StrLe(x, s[0]) {
      InsertPermutes(x, s[1..]);
      assert s == [s[0]] + s[1..];
    }
  }

  lemma InsertElements(x: string, s: seq<string>)
    ensures forall y :: y in Insert(x, s) <==> y == x || y in s
  {
    InsertPermutes(x, s);
    assert forall y :: y in Insert(x, s) <==> y in multiset(Insert(x, s));
  }

  lemma {:induction false} InsertSorted(x: string, s: seq<string>)
    requires Sorted(s)
    ensures Sorted(Insert(x, s))
  {
    if s == [] || StrLe(x, s[0]) {
      forall y | y in s
        ensures StrLe(x, y)
      {
        var k :| 0 <= k < |s| && s[k] == y;
        if k > 0 {
          StrLeTransitive(x, s[0], y);
        }
      }
      SortedCons(x, s);
    } else {
      StrLeTotal(x, s[0]);
      var t := Insert(x, s[1..]);
      assert Sorted(s[1..]);
      InsertSorted(x, s[1..]);
      InsertElements(x, s[1..]);
      forall y | y in t
        ensures StrLe(s[0], y)
      {
        if y != x {
          var k :| 0 <= k < |s[1..]| && s[1..][k] == y;
          assert s[k + 1] == y;
        }
      }
      SortedCons(s[0], t);
    }
  }

  /** The reference sort is a sorted permutation of its input. */
  lemma {:induction false} SortCorrect(s: seq<string>)
    ensures Sorted(Sort(s))
    ensures multiset(Sort(s)) == multiset(s)
  {
    if s != [] {
      SortCorrect(s[1..]);
      InsertSorted(s[0], Sort(s[1..]));
      InsertPermutes(s[0], Sort(s[1..]));
      assert s == [s[0]] + s[1..];
    }
  }

  lemma SortedHeadsEqual(a: seq<string>, b: seq<string>)
    requires Sorted(a) && Sorted(b)
    requires multiset(a) == multiset(b)
    requires a != []
    ensures b != [] && a[0] == b[0]
  {
    assert a[0] in multiset(b);
    assert b != [];
    assert b[0] in multiset(a);
    var k :| 0 <= k < |b| && b[k] == a[0];
    var m :| 0 <= m < |a| && a[m] == b[0];
    if k > 0 {
      assert StrLe(b[0], b[k]);
    } else {
      StrLeReflexive(b[0]);
    }
    if m > 0 {
      assert StrLe(a[0], a[m]);
    } else {
      StrLeReflexive(a[0]);
    }
    StrLeAntisymmetric(a[0], b[0]);
  }

  lemma MultisetTail(a: seq<string>)
    requires a != []
    ensures multiset(a[1..]) == multiset(a) - multiset{a[0]}
  {
    assert a == [a[0]] + a[1..];
  }

  /** A sorted permutation is unique: any correct sort, stable or not, gives
      the same sequence. */
  lemma {:induction false} SortedUnique(a: seq<string>, b: seq<string>)
    requires Sorted(a) && Sorted(b)
    requires multiset(a) == multiset(b)
    ensures a == b
  {
    if a == [] {
      assert |multiset(b)| == 0;
    } else {
      SortedHeadsEqual(a, b);
      MultisetTail(a);
      MultisetTail(b);
      var a', b' := a[1..], b[1..];
      assert Sorted(a') && Sorted(b') by {
        forall i, j | 0 <= i < j < |a'| ensures StrLe(a'[i], a'[j]) {
          assert a'[i] == a[i + 1] && a'[j] == a[j + 1];
        }
        forall i, j | 0 <= i < j < |b'| ensures StrLe(b'[i], b'[j]) {
          assert b'[i] == b[i + 1] && b'[j] == b[j + 1];
        }
      }
      SortedUnique(a', b');
      assert a == [a[0]] + a' && b == [b[0]] + b';
    }
  }

  // ---------------------------------------------------------------------
  // Reference definition of `Vec::dedup`: drop every element equal to the
  // one before it.

  function Dedup(s: seq<string>): seq<string>
  {
    if |s| <= 1 then s
    else if s[|s| - 1] == s[|s| - 2] then Dedup(s[..|s| - 1])
    else Dedup(s[..|s| - 1]) + [s[|s| - 1]]
  }

  lemma {:induction false} DedupLast(s: seq<string>)
    requires s != []
    ensures Dedup(s) != [] && Dedup(s)[|Dedup(s)| - 1] == s[|s| - 1]
  {
    if |s| > 1 {
      DedupLast(s[..|s| - 1]);
    }
  }

  /** Deduplicating a sorted sequence keeps exactly its elements, each once,
      in strictly increasing order. */
  lemma {:induction false} DedupSorted(s: seq<string>)
    requires Sorted(s)
    ensures StrictlySorted(Dedup(s))
    ensures forall x :: x in Dedup(s) <==> x in s
    ensures |Dedup(s)| <= |s|
  {
    if |s| > 1 {
      var n := |s|;
      var p := s[..n - 1];
      assert Sorted(p);
      DedupSorted(p);
      var d := Dedup(p);
      if s[n - 1] == s[n - 2] {
        assert s == p + [s[n - 2]];
      } else {
        assert s == p + [s[n - 1]];
        forall x | x in d
          ensures StrLe(x, s[n - 1]) && x != s[n - 1]
        {
          var k :| 0 <= k < |p| && p[k] == x;
          if x == s[n - 1] {
            assert StrLe(s[k], s[n - 2]) || k == n - 2;
            if k < n - 2 {
              StrLeAntisymmetric(s[n - 2], s[n - 1]);
            }
            assert false;
          }
        }
        var r := d + [s[n - 1]];
        forall i, j | 0 <= i < j < |r|
          ensures StrLe(r[i], r[j]) && r[i] != r[j]
        {
          if j == |r| - 1 {
            assert r[i] in d;
          }
        }
      }
    }
  }

  // ---------------------------------------------------------------------
  // The anchors.

  const ANCHOR_OPEN: string := "<a href=\""
  const ANCHOR_CLOSE: string := "\"></a>"

  /** `format!("<a href=\"{}\"></a>", url)`. */
  function Anchor(url: string): string
  {
    ANCHOR_OPEN + url + ANCHOR_CLOSE
  }

  /** The URL an anchor carries. */
  function AnchorUrl(a: string): string
    requires |a| >= |ANCHOR_OPEN| + |ANCHOR_CLOSE|
  {
    a[|ANCHOR_OPEN|..|a| - |ANCHOR_CLOSE|]
  }

  /** Round trip: an anchor gives back its URL, so distinct URLs give
      distinct anchors. */
  lemma AnchorRoundTrip(url: string)
    ensures |Anchor(url)| == |ANCHOR_OPEN| + |url| + |ANCHOR_CLOSE|
    ensures AnchorUrl(Anchor(url)) == url
  {
  }

  function Anchors(urls: seq<string>): (r: seq<string>)
  {
    seq(|urls|, i requires 0 <= i < |urls| => Anchor(urls[i]))
  }

  /** The URLs `find_links` keeps, in output order. */
  function LinkUrls(matches: seq<string>): seq<string>
  {
    Dedup(Sort(matches))
  }

  /** What `find_links` returns for the regex matches `matches`. */
  function Links(matches: seq<string>): seq<string>
  {
    Anchors(LinkUrls(matches))
  }

  /** The promises of `find_links`: one anchor per distinct match and no
      more, each wrapping a match; the URLs in strictly increasing order; never
      more anchors than matches. */
  lemma LinksCorrect(matches: seq<string>)
    ensures |Links(matches)| == |LinkUrls(matches)| <= |matches|
    ensures StrictlySorted(LinkUrls(matches))
    ensures forall u :: u in LinkUrls(matches) <==> u in matches
    ensures forall i :: 0 <= i < |Links(matches)| ==>
              Links(matches)[i] == Anchor(LinkUrls(matches)[i])
    ensures forall i, j :: 0 <= i < j < |Links(matches)| ==> Links(matches)[i] != Links(matches)[j]
  {
    SortCorrect(matches);
    DedupSorted(Sort(matches));
    assert |Sort(matches)| == |multiset(Sort(matches))| == |multiset(matches)| == |matches|;
    forall u
      ensures u in Sort(matches) <==> u in matches
    {
      assert u in Sort(matches) <==> u in multiset(Sort(matches));
    }
    var urls := LinkUrls(matches);
    forall i, j | 0 <= i < j < |urls|
      ensures Anchor(urls[i]) != Anchor(urls[j])
    {
      AnchorRoundTrip(urls[i]);
      AnchorRoundTrip(urls[j]);
    }
  }

  /** Every match gives an anchor in the output. */
  lemma LinksComplete(matches: seq<string>, u: string)
    requires u in matches
    ensures Anchor(u) in Links(matches)
  {
    LinksCorrect(matches);
    var k :| 0 <= k < |LinkUrls(matches)| && LinkUrls(matches)[k] == u;
    assert Links(matches)[k] == Anchor(u);
  }

  /** Every character of `u` sorts after '"', the first character of
      `ANCHOR_CLOSE`. */
  predicate AfterQuote(u: string)
  {
    forall k :: 0 <= k < |u| ==> '"' < u[k]
  }

  /** A common prefix does not change the order. */
  lemma {:induction false} StrLeCommonPrefix(p: string, x: string, y: string)
    ensures StrLe(p + x, p + y) == StrLe(x, y)
  {
    if p != [] {
      assert (p + x)[1..] == p[1..] + x;
      assert (p + y)[1..] == p[1..] + y;
      StrLeCommonPrefix(p[1..], x, y);
    } else {
      assert p + x == x && p + y == y;
    }
  }

  /** The tail of a string whose characters all sort after '"'. */
  lemma AfterQuoteTail(u: string)
    requires u != [] && AfterQuote(u)
    ensures AfterQuote(u[1..])
  {
    forall k | 0 <= k < |u| - 1
      ensures '"' < u[1..][k]
    {
      assert u[1..][k] == u[k + 1];
    }
  }

  /** Appending `c` to a non-empty string keeps its head and appends `c` to
      its tail. */
  lemma AppendShape(u: string, c: string)
    requires u != []
    ensures u + c != [] && (u + c)[0] == u[0] && (u + c)[1..] == u[1..] + c
  {
  }

  /** For URLs whose characters all sort after '"', a suffix that starts
      with '"' never decides the order: `u + c` and `v + c` are ordered as `u`
      and `v` are. */
  lemma {:induction false} StrLeBeforeQuote(u: string, v: string, c: string)
    requires AfterQuote(u) && AfterQuote(v)
    requires c != [] && c[0] == '"'
    requires StrLe(u, v)
    ensures StrLe(u + c, v + c)
  {
    if u == [] {
      assert u + c == c;
      if v == [] {
        assert v + c == c;
        StrLeReflexive(c);
      } else {
        AppendShape(v, c);
        assert '"' < v[0];
      }
    } else {
      AppendShape(u, c);
      AppendShape(v, c);
      if u[0] == v[0] {
        AfterQuoteTail(u);
        AfterQuoteTail(v);
        StrLeBeforeQuote(u[1..], v[1..], c);
      }
    }
  }

  /** Anchors of such URLs are ordered as the URLs are. */
  lemma AnchorOrder(u: string, v: string)
    requires AfterQuote(u) && AfterQuote(v)
    requires StrLe(u, v)
    ensures StrLe(Anchor(u), Anchor(v))
  {
    assert ANCHOR_CLOSE[0] == '"';
    StrLeBeforeQuote(u, v, ANCHOR_CLOSE);
    StrLeCommonPrefix(ANCHOR_OPEN, u + ANCHOR_CLOSE, v + ANCHOR_CLOSE);
    assert Anchor(u) == ANCHOR_OPEN + (u + ANCHOR_CLOSE);
    assert Anchor(v) == ANCHOR_OPEN + (v + ANCHOR_CLOSE);
  }

  /** When no match holds a character at or below '"' (no URL match can),
      the anchors `find_links` returns are themselves in strictly increasing
      order, not only the URLs inside them. */
  lemma LinksSorted(matches: seq<string>)
    requires forall u :: u in matches ==> AfterQuote(u)
    ensures StrictlySorted(Links(matches))
  {
    LinksCorrect(matches);
    var urls := LinkUrls(matches);
    forall i, j | 0 <= i < j < |urls|
      ensures StrLe(Anchor(urls[i]), Anchor(urls[j]))
    {
      assert urls[i] in urls && urls[j] in urls;
      AnchorOrder(urls[i], urls[j]);
    }
  }

  // ---------------------------------------------------------------------
  // The in-place operations on the match vector.

  /** The first `n` elements of `s` are in order. */
  predicate SortedPrefix(s: seq<string>, n: nat)
    requires n <= |s|
  {
    forall k, l :: 0 <= k < l < n ==> StrLe(s[k], s[l])
  }

  /** Insertion-sort state: `s[..i + 1]` is in order except for `s[j]`,
      which is no greater than anything after it. */
  predicate Inserting(s: seq<string>, j: nat, i: nat)
    requires j <= i < |s|
  {
    && (forall k, l :: 0 <= k < l <= i && k != j && l != j ==> StrLe(s[k], s[l]))
    && (forall l :: j < l <= i ==> StrLe(s[j], s[l]))
  }

  lemma InsertingStart(s: seq<string>, i: nat)
    requires i < |s| && SortedPrefix(s, i)
    ensures Inserting(s, i, i)
  {
  }

  /** Swapping `s[j]` with a greater predecessor moves the hole one left. */
  lemma InsertingSwap(s: seq<string>, j: nat, i: nat)
    requires 0 < j <= i < |s| && Inserting(s, j, i)
    requires !StrLe(s[j - 1], s[j])
    ensures Inserting(s[j - 1 := s[j]][j := s[j - 1]], j - 1, i)
  {
    StrLeTotal(s[j - 1], s[j]);
  }

  /** Once the predecessor of `s[j]` is no greater, `s[..i + 1]` is in order. */
  lemma InsertingDone(s: seq<string>, j: nat, i: nat)
    requires j <= i < |s| && Inserting(s, j, i)
    requires j == 0 || StrLe(s[j - 1], s[j])
    ensures SortedPrefix(s, i + 1)
  {
    forall k | 0 <= k < j
      ensures StrLe(s[k], s[j])
    {
      if k < j - 1 {
        StrLeTransitive(s[k], s[j - 1], s[j]);
      }
    }
  }

  /** `sort_unstable`: sorts the vector in place. (The library uses pattern-
      defeating quicksort; any in-place sort has the same result, see
      `SortedUnique`.) */
  method SortUnstable(a: array<string>)
    modifies a
    ensures Sorted(a[..])
    ensures multiset(a[..]) == multiset(old(a[..]))
  {
    var i := 0;
    while i < a.Length
      invariant 0 <= i <= a.Length
      invariant SortedPrefix(a[..], i)
      invariant multiset(a[..]) == multiset(old(a[..]))
    {
      InsertingStart(a[..], i);
      var j := i;
      while 0 < j && !StrLe(a[j - 1], a[j])
        invariant 0 <= j <= i
        invariant Inserting(a[..], j, i)
        invariant multiset(a[..]) == multiset(old(a[..]))
      {
        InsertingSwap(a[..], j, i);
        a[j - 1], a[j] := a[j], a[j - 1];
        j := j - 1;
      }
      InsertingDone(a[..], j, i);
      i := i + 1;
    }
  }

  /** `Vec::dedup`: moves the kept elements to the front and returns how many
      there are (the length the vector is truncated to). */
  method DedupInPlace(a: array<string>) returns (len: nat)
    modifies a
    ensures len <= a.Length
    ensures a[..len] == Dedup(old(a[..]))
  {
    if a.Length == 0 {
      return 0;
    }
    ghost var s := a[..];
    var write := 1;
    var read := 1;
    while read < a.Length
      invariant 1 <= write <= read <= a.Length
      invariant a[..write] == Dedup(s[..read])
      invariant forall k :: read <= k < a.Length ==> a[k] == s[k]
    {
      DedupLast(s[..read]);
      assert s[..read + 1][..read] == s[..read];
      assert a[read] == s[read];
      if a[read] != a[write - 1] {
        a[write] := a[read];
        write := write + 1;
      }
      read := read + 1;
    }
    assert s[..read] == s;
    len := write;
  }

  /** `find_links` on the matches of the URL regex. */
  method FindLinks(matches: seq<string>) returns (links: seq<string>)
    ensures links == Links(matches)
  {
    var urlMatches := new string[|matches|](i requires 0 <= i < |matches| => matches[i]);
    assert urlMatches[..] == matches;
    SortUnstable(urlMatches);
    SortCorrect(matches);
    SortedUnique(urlMatches[..], Sort(matches));
    var n := DedupInPlace(urlMatches);
    links := Anchors(urlMatches[..n]);
  }
}
