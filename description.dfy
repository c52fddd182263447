/** The per-event body text: strip the configured patterns, cut the result to
    the character budget, append anchors for the links found in the part that
    was cut, then the event's time range. */
module Description {
  import opened Seqs
  import opened Strings
  import opened LinkHarvest
  import opened Events

  const URL_REGEX: string :=
    "(https?://(www\\.)?)?[-a-zA-Z0-9@:%._\\+~#=]{1,256}\\.[a-zA-Z0-9()]{1,6}\\b([-a-zA-Z0-9()@:%_\\+.~#?&//=]*)"

  const ELLIPSIS: string := "..."

  /** What the model assumes of the regex engine's `captures_iter` with the
      URL regex: there are no more whole matches than characters in the text
      searched; each is a non-empty piece of that text (the URL regex cannot
      match the empty string); and each is made only of characters that sort
      after '"', because every literal and character class of the URL regex
      holds only ASCII characters from '#' upwards. */
  ghost predicate UrlMatcher(findAll: (string, string) -> seq<string>)
  {
    && (forall text :: |findAll(URL_REGEX, text)| <= |text|)
    && (forall text, u :: u in findAll(URL_REGEX, text) ==>
          u != [] && IsInfix(u, text) && AfterQuote(u))
  }

  /** The URL regex finds nothing in the empty text. */
  lemma NoUrlInEmptyText(findAll: (string, string) -> seq<string>)
    requires UrlMatcher(findAll)
    ensures findAll(URL_REGEX, "") == []
  {
    assert |findAll(URL_REGEX, "")| <= |""|;
  }

  /** The strip fold: each pattern in turn, every match replaced by "".
      `removeAll(p, d)` stands for `Regex::new(p).replace_all(d, "")`. */
  function StripAll(description: string, patterns: seq<string>,
                    removeAll: (string, string) -> string): string
    decreases patterns
  {
    if patterns == [] then description
    else StripAll(removeAll(patterns[0], description), patterns[1..], removeAll)
  }

  /** The patterns act in list order: no pattern leaves the text as it is,
      one pattern is one `replace_all`, and a list is its first part followed
      by the rest. */
  lemma {:induction false} StripAllInOrder(description: string, p: seq<string>, q: seq<string>,
                                           removeAll: (string, string) -> string)
    decreases p
    ensures StripAll(description, [], removeAll) == description
    ensures |p| == 1 ==> StripAll(description, p, removeAll) == removeAll(p[0], description)
    ensures StripAll(description, p + q, removeAll)
            == StripAll(StripAll(description, p, removeAll), q, removeAll)
  {
    if p != [] {
      assert (p + q)[1..] == p[1..] + q;
      StripAllInOrder(removeAll(p[0], description), p[1..], q, removeAll);
    } else {
      assert p + q == q;
    }
  }

  /** The text links are harvested from: the grapheme iterator after
      `take(descChars)` has consumed its part and `skip(descChars)` has
      dropped as many again. */
  function HarvestedText(graphemes: seq<string>, descChars: nat): string
  {
    Concat(Skip(Skip(graphemes, descChars), descChars))
  }

  /** The description before the time suffix (`short_desc` after the `if`),
      given the stripped text and its grapheme split. The test is against the
      byte length, as in the program. */
  function ShortDesc(stripped: string, descChars: nat, graphemes: seq<string>,
                     findAll: (string, string) -> seq<string>): string
  {
    if descChars < ByteLen(stripped) then
      Concat(Take(graphemes, descChars)) + ELLIPSIS
        + Concat(Links(findAll(URL_REGEX, HarvestedText(graphemes, descChars))))
    else
      stripped
  }

  /** The time-range suffix for events with a time: a newline unless the text
      already ends in one, then `start-end-time-style`. */
  function WithTimeSuffix(shortDesc: string, event: KhalEvent): string
  {
    if event.allDay then shortDesc
    else (if EndsWithNewline(shortDesc) then shortDesc else shortDesc + "\n") + event.startEndTimeStyle
  }

  /** The notification body of one event. */
  function Body(event: KhalEvent, stripPatterns: seq<string>, descChars: nat,
                removeAll: (string, string) -> string,
                findAll: (string, string) -> seq<string>,
                graphemes: string -> seq<string>): string
  {
    var stripped := StripAll(event.description, stripPatterns, removeAll);
    WithTimeSuffix(ShortDesc(stripped, descChars, graphemes(stripped), findAll), event)
  }

  /** `for link in links { short_desc += &link }`. */
  method AppendLinks(shortDesc: string, links: seq<string>) returns (r: string)
    ensures r == shortDesc + Concat(links)
  {
    r := shortDesc;
    for i := 0 to |links|
      invariant r == shortDesc + Concat(links[..i])
    {
      assert links[..i + 1] == links[..i] + [links[i]];
      ConcatAppend(links[..i], [links[i]]);
      assert Concat([links[i]]) == links[i] + Concat<char>([]);
      r := r + links[i];
    }
    assert links[..|links|] == links;
  }

  /** The body as the thread closure builds it. */
  method FormatDescription(event: KhalEvent, stripPatterns: seq<string>, descChars: nat,
                           removeAll: (string, string) -> string,
                           findAll: (string, string) -> seq<string>,
                           graphemes: string -> seq<string>)
    returns (body: string)
    ensures body == Body(event, stripPatterns, descChars, removeAll, findAll, graphemes)
  {
    var stripped := StripAll(event.description, stripPatterns, removeAll);
    var shortDesc: string;
    if descChars < ByteLen(stripped) {
      var descGraphemes := graphemes(stripped);
      var links := FindLinks(findAll(URL_REGEX, HarvestedText(descGraphemes, descChars)));
      shortDesc := AppendLinks(Concat(Take(descGraphemes, descChars)) + ELLIPSIS, links);
    } else {
      shortDesc := stripped;
    }
    assert shortDesc == ShortDesc(stripped, descChars, graphemes(stripped), findAll);
    if !event.allDay {
      if !EndsWithNewline(shortDesc) {
        shortDesc := shortDesc + "\n";
      }
      shortDesc := shortDesc + event.startEndTimeStyle;
    }
    body := shortDesc;
  }

  // ---------------------------------------------------------------------
  // What the body is made of.

  /** Within the byte budget the stripped text is kept whole: no ellipsis, no
      links; with no strip patterns that is the description itself. */
  lemma WithinBudgetUnchanged(event: KhalEvent, descChars: nat, stripped: string,
                              graphemes: seq<string>, findAll: (string, string) -> seq<string>,
                              removeAll: (string, string) -> string)
    requires ByteLen(stripped) <= descChars
    ensures ShortDesc(stripped, descChars, graphemes, findAll) == stripped
    ensures ByteLen(event.description) <= descChars ==>
              ShortDesc(StripAll(event.description, [], removeAll), descChars, graphemes, findAll)
              == event.description
  {
  }

  /** Over the byte budget the body starts with the first `min(N, count)`
      whole graphemes, which spell a prefix of the stripped text, then the
      ellipsis, then the anchors for the links of the graphemes from index
      `2 * N` on. */
  lemma {:induction false} OverBudgetShape(stripped: string, descChars: nat, graphemes: seq<string>,
                                           findAll: (string, string) -> seq<string>)
    requires descChars < ByteLen(stripped)
    requires IsGraphemeSplit(graphemes, stripped)
    ensures var k := Min(descChars, |graphemes|);
            && HarvestedText(graphemes, descChars) == Concat(graphemes[Min(2 * descChars, |graphemes|)..])
            && ShortDesc(stripped, descChars, graphemes, findAll)
               == Concat(graphemes[..k]) + ELLIPSIS
                  + Concat(Links(findAll(URL_REGEX, HarvestedText(graphemes, descChars))))
            && IsPrefix(Concat(graphemes[..k]), stripped)
            && stripped == Concat(graphemes[..k]) + Concat(graphemes[k..])
  {
    var k := Min(descChars, |graphemes|);
    SkipSkip(graphemes, descChars, descChars);
    GraphemePrefix(graphemes, stripped, k);
  }

  /** The anchors `find_links` makes of URL matches found in `text`: each
      wraps a non-empty piece of `text`, every match is wrapped, the URLs and
      the anchors alike come in strictly increasing order, and there are no
      more anchors than matches. */
  lemma LinksOfMatches(matches: seq<string>, text: string)
    requires forall u :: u in matches ==> u != [] && IsInfix(u, text) && AfterQuote(u)
    ensures |Links(matches)| <= |matches|
    ensures StrictlySorted(LinkUrls(matches))
    ensures StrictlySorted(Links(matches))
    ensures forall i :: 0 <= i < |Links(matches)| ==>
              Links(matches)[i] == Anchor(LinkUrls(matches)[i])
              && LinkUrls(matches)[i] != [] && IsInfix(LinkUrls(matches)[i], text)
    ensures forall u :: u in matches ==> Anchor(u) in Links(matches)
  {
    LinksCorrect(matches);
    LinksSorted(matches);
    forall i | 0 <= i < |LinkUrls(matches)|
      ensures LinkUrls(matches)[i] in matches
    {
      assert LinkUrls(matches)[i] in LinkUrls(matches);
    }
    forall u | u in matches
      ensures Anchor(u) in Links(matches)
    {
      LinksComplete(matches, u);
    }
  }

  /** Links are harvested from a suffix of the stripped text that starts at
      grapheme `2 * N` (so nothing from the kept part, and nothing from the
      first `N` graphemes after it); each anchor wraps a non-empty piece of
      that suffix, every URL match in it is wrapped, the URLs and the anchors
      alike come in strictly increasing order, and there are no more anchors
      than matches. */
  lemma HarvestedLinksCorrect(stripped: string, descChars: nat, graphemes: seq<string>,
                              findAll: (string, string) -> seq<string>)
    requires IsGraphemeSplit(graphemes, stripped)
    requires UrlMatcher(findAll)
    ensures var j := Min(2 * descChars, |graphemes|);
            var text := HarvestedText(graphemes, descChars);
            var matches := findAll(URL_REGEX, text);
            && stripped == Concat(graphemes[..j]) + text
            && |Links(matches)| <= |matches|
            && StrictlySorted(LinkUrls(matches))
            && StrictlySorted(Links(matches))
            && (forall i :: 0 <= i < |Links(matches)| ==>
                  Links(matches)[i] == Anchor(LinkUrls(matches)[i])
                  && LinkUrls(matches)[i] != [] && IsInfix(LinkUrls(matches)[i], text))
            && (forall u :: u in matches ==> Anchor(u) in Links(matches))
  {
    var j := Min(2 * descChars, |graphemes|);
    var text := HarvestedText(graphemes, descChars);
    SkipSkip(graphemes, descChars, descChars);
    GraphemePrefix(graphemes, stripped, j);
    LinksOfMatches(findAll(URL_REGEX, text), text);
  }

  /** With a time the body ends in a newline and the time range, and the
      newline is added, exactly once, only when the text did not already end
      in one; an all-day body gets nothing. */
  lemma TimeSuffixCorrect(shortDesc: string, event: KhalEvent)
    ensures event.allDay ==> WithTimeSuffix(shortDesc, event) == shortDesc
    ensures !event.allDay ==>
              var r := WithTimeSuffix(shortDesc, event);
              var n := |r| - |event.startEndTimeStyle|;
              && n >= 1
              && r[n..] == event.startEndTimeStyle
              && r[n - 1] == '\n'
              && IsPrefix(shortDesc, r)
              && (r[..n] == shortDesc <==> EndsWithNewline(shortDesc))
              && (!EndsWithNewline(shortDesc) ==> r[..n] == shortDesc + "\n")
  {
  }

  // ---------------------------------------------------------------------
  // The two ways the budget logic departs from its evident intent.

  /** The budget is compared with bytes, so text that has no more graphemes
      than the budget but more bytes still gets the ellipsis; it then gets no
      links, as nothing is left to harvest. */
  lemma {:induction false} ByteBudgetQuirk(stripped: string, descChars: nat, graphemes: seq<string>,
                                           findAll: (string, string) -> seq<string>)
    requires IsGraphemeSplit(graphemes, stripped)
    requires findAll(URL_REGEX, "") == []
    requires |graphemes| <= descChars < ByteLen(stripped)
    ensures ShortDesc(stripped, descChars, graphemes, findAll) == stripped + ELLIPSIS
  {
    assert graphemes[..|graphemes|] == graphemes;
    assert Skip(Skip(graphemes, descChars), descChars) == [];
  }

  /** The instance: "é" is one grapheme but two bytes, and with a budget of
      one character it is shown as "é...". */
  lemma ByteBudgetExample(findAll: (string, string) -> seq<string>)
    requires findAll(URL_REGEX, "") == []
    ensures ShortDesc("\U{E9}", 1, ["\U{E9}"], findAll) == "\U{E9}..."
  {
    assert ByteLen("\U{E9}") == 2;
    assert IsGraphemeSplit(["\U{E9}"], "\U{E9}") by {
      assert Concat(["\U{E9}"]) == "\U{E9}" + Concat<char>([]);
    }
    ByteBudgetQuirk("\U{E9}", 1, ["\U{E9}"], findAll);
  }

  /** Because of the second `skip`, links among the first `N` discarded
      graphemes are lost: with the text "xa.io" and a budget of one, only
      ".io" is searched, in which the URL regex finds nothing (it needs a
      non-empty run before the dot), so the URL "a.io" is dropped. */
  lemma SkipQuirkExample(findAll: (string, string) -> seq<string>)
    requires findAll(URL_REGEX, ".io") == []
    ensures ShortDesc("xa.io", 1, ["x", "a", ".", "i", "o"], findAll) == "x..."
  {
    var g: seq<string> := ["x", "a", ".", "i", "o"];
    assert ByteLen("xa.io") == 5;
    assert Take(g, 1) == ["x"];
    assert Concat(["x"]) == "x" + Concat<char>([]);
    assert Skip(Skip(g, 1), 1) == [".", "i", "o"];
    assert Concat([".", "i", "o"]) == ".io" by {
      assert Concat(["o"]) == "o" + Concat<char>([]);
      assert Concat(["i", "o"]) == "i" + Concat(["o"]);
      assert Concat([".", "i", "o"]) == "." + Concat(["i", "o"]);
    }
  }

  /** The evident intent: truncate when there are more graphemes than the
      budget, and harvest links from everything that was cut. */
  function ShortDescIntended(stripped: string, descChars: nat, graphemes: seq<string>,
                             findAll: (string, string) -> seq<string>): string
  {
    if descChars < |graphemes| then
      Concat(graphemes[..descChars]) + ELLIPSIS
        + Concat(Links(findAll(URL_REGEX, Concat(graphemes[descChars..]))))
    else
      stripped
  }

  /** The corrected body keeps text of at most `N` graphemes whole; longer
      text is cut after exactly `N` whole graphemes, and links are harvested
      from exactly the cut part, every match in it wrapped once. */
  lemma IntendedCorrect(stripped: string, descChars: nat, graphemes: seq<string>,
                        findAll: (string, string) -> seq<string>)
    requires IsGraphemeSplit(graphemes, stripped)
    ensures |graphemes| <= descChars ==> ShortDescIntended(stripped, descChars, graphemes, findAll) == stripped
    ensures descChars < |graphemes| ==>
              var cut := Concat(graphemes[descChars..]);
              var matches := findAll(URL_REGEX, cut);
              && stripped == Concat(graphemes[..descChars]) + cut
              && ShortDescIntended(stripped, descChars, graphemes, findAll)
                 == Concat(graphemes[..descChars]) + ELLIPSIS + Concat(Links(matches))
              && (forall u :: u in matches ==> Anchor(u) in Links(matches))
  {
    if descChars < |graphemes| {
      GraphemePrefix(graphemes, stripped, descChars);
      var matches := findAll(URL_REGEX, Concat(graphemes[descChars..]));
      forall u | u in matches
        ensures Anchor(u) in Links(matches)
      {
        LinksComplete(matches, u);
      }
    }
  }

  /** On the example where the program loses the URL "a.io", the corrected
      version, which searches the whole cut part "a.io", keeps it. */
  lemma IntendedKeepsLostLink(findAll: (string, string) -> seq<string>)
    requires findAll(URL_REGEX, "a.io") == ["a.io"]
    ensures ShortDescIntended("xa.io", 1, ["x", "a", ".", "i", "o"], findAll)
            == "x..." + Anchor("a.io")
  {
    var g: seq<string> := ["x", "a", ".", "i", "o"];
    assert Concat(g[..1]) == "x" + Concat<char>([]);
    assert Concat(g[1..]) == "a.io" by {
      assert Concat(["o"]) == "o" + Concat<char>([]);
      assert Concat(["i", "o"]) == "i" + Concat(["o"]);
      assert Concat([".", "i", "o"]) == "." + Concat(["i", "o"]);
      assert g[1..] == ["a", ".", "i", "o"];
      assert Concat(["a", ".", "i", "o"]) == "a" + Concat([".", "i", "o"]);
    }
    assert Links(["a.io"]) == [Anchor("a.io")];
    assert Concat([Anchor("a.io")]) == Anchor("a.io") + Concat<char>([]);
  }
}
