# khal-notify, modelled in Dafny

khal-notify asks the `khal` calendar for the events that have not started at
a target time. It sends one desktop notification per event through
`notify-send`: the title, then the description (shortened when it is over the
budget), then, for timed events, the event's time range. This project models the per-event text pipeline of `src/main.rs` as
Dafny functions, methods and lemmas:

- the target time: a number of minutes from now, or an absolute local date-time;
- the `khal` argument vector;
- the all-day filter;
- the display title and the description formatter: strip patterns, cut to the
  budget, harvest links from the cut part, add the time suffix;
- `find_links`: sort, dedup and wrap the URL matches;
- the spawn and join loops, as sequential loops.

Modules, leaf first:

- `Wrappers`: `Option` and `Result`.
- `Seqs`: the iterator adaptors (`collect`, `take`, `skip`, `intersperse`) as sequence functions.
- `Strings`: UTF-8 byte length, grapheme splits and the string order.
- `Events`: `KhalEvent`, `FormattedTitle` and the all-day filter.
- `TimeTarget`: `u64` parsing and target resolution.
- `KhalQuery`: the `khal` arguments.
- `LinkHarvest`: `find_links`. It sorts and dedups an `array<string>` in place, and is proved equal to a reference definition.
- `Description`: the body of one notification. `FormatDescription` is the imperative loop, proved equal to the function `Body`.
- `Notify`: the spawn loop, the join loop and one whole run.

Text is `string`, a sequence of Unicode scalar values. Rust's `str::len()`
counts UTF-8 bytes, so it is modelled by `Strings.ByteLen`. Rust orders strings
byte by byte. UTF-8 keeps the order of scalar values, so that is the same
order as the lexicographic one on scalar values (`Strings.StrLe`). No URL
match holds a character at or below `"`, so the anchors `find_links` returns
are in the same strictly increasing order as the URLs inside them.

Everything outside the program is a parameter (`Notify.Env`):

- the clock;
- the regex engine: whether a pattern compiles, `replace_all` with `""`, and the whole matches of `captures_iter`;
- the grapheme segmentation;
- `PrimitiveDateTime::parse` and `OffsetDateTime::format`.

Lemmas that need the libraries' guarantees state them as `requires`:

- `Strings.IsGraphemeSplit`: the graphemes spell the text and none is empty.
- `Description.UrlMatcher`: URL matches are non-empty pieces of the searched text, never more of them than characters, made only of characters that sort after `"` (every literal and character class of `URL_REGEX` holds only ASCII characters from `#` upwards).

`Description.ByteBudgetQuirk` and `Description.ByteBudgetExample` need only one consequence of `UrlMatcher` (`Description.NoUrlInEmptyText`): the URL regex finds nothing in the empty text.

The two lemmas about the second `skip` assume, as `requires`, two facts about `URL_REGEX` itself. `UrlMatcher` does not imply them, because it does not describe which texts match:

- `Description.SkipQuirkExample` assumes that the regex finds nothing in `".io"`. A match needs a non-empty run, then a `.`, then one to six letters or digits. In `".io"` nothing stands before the only dot.
- `Description.IntendedKeepsLostLink` assumes that the regex matches `"a.io"` whole, and nothing else in it.

Where the program and its intended design differ, the model follows the program:

- The budget is compared with the byte length of the stripped description, not with its grapheme count.
- Links are harvested only from graphemes at index `2 * N` and later, not from the whole cut part.
- Strip patterns that do not compile are dropped silently, because `Regex::new` results are flattened. Startup does not fail.
- Threads are joined in spawn order. The first panicked thread makes the main thread panic, and the handles after it are never joined.
- This version sends plain notifications. It offers no link actions and reads back no choice. The interactive design variant is not part of this model.

## Model

| member | source | states |
|---|---|---|
| `Events.FormattedTitle` | src/main.rs:40-46 | the title is unchanged exactly when the repeat symbol is empty; otherwise it is the title followed by a space and the repeat symbol |
| `Events.WithoutAllDay` | src/main.rs:183-185 | an event survives the filter exactly when it is in the input and is not all-day, and then as often as it occurs in the input; the result is never longer than the input |
| `Events.SelectEvents` | src/main.rs:183-185 | definition: every event with `--all-day`, otherwise `WithoutAllDay`; its properties are stated by `SelectEventsCorrect` |
| `Events.WithoutAllDayIsSubsequence` | src/main.rs:184 | the filter keeps the surviving events in their original order |
| `Events.WithoutAllDayKeepsTimed` | src/main.rs:184 | a list with no all-day event passes the filter unchanged |
| `Events.SelectEventsCorrect` | src/main.rs:183-185 | with the flag set the list is untouched; otherwise no all-day event remains, every other event remains as often as it occurs, order is kept; filtering twice equals filtering once |
| `Seqs.Intersperse` | src/main.rs:175 | definition of `Iterator::intersperse`: the separator between every two neighbours; its properties are stated by the three lemmas below |
| `Seqs.IntersperseEven` | src/main.rs:129 | element `i` of the input sits at position `2i` of the interspersed sequence |
| `Seqs.IntersperseOdd` | src/main.rs:175 | the separator sits between every two neighbours |
| `Seqs.EvensIntersperse` | src/main.rs:175 | round trip: every other element of the interspersed sequence restores the input |
| `TimeTarget.JoinAt` | src/main.rs:125-130 | definition of the `AT` token: the values joined by single spaces; its shape is stated by `JoinAtShape` |
| `TimeTarget.JoinAtShape` | src/main.rs:125-130 | one `AT` value is used as it is; two or more always contain a space, so they are always read as a date-time |
| `TimeTarget.ParseU64` | src/main.rs:161 | a successful `parse::<u64>()` yields at most 2^64 - 1 |
| `TimeTarget.ParseU64Rejects` | src/main.rs:161 | the empty string, a lone '+' and any string with a character that is not a digit (other than one leading '+') fail to parse |
| `TimeTarget.ParseDecimal` | src/main.rs:161 | round trip: every u64 parses back from its decimal rendering |
| `TimeTarget.Resolve` | src/main.rs:155-163 | definition of the target: a token with ':' or ' ' is parsed as a local date-time and shifted by the offset; any other token is a minute count added to the clock; its properties are stated by the three `Resolve…` lemmas |
| `TimeTarget.ResolveAbsolute` | src/main.rs:155-158 | a token with ':' or ' ' goes only to the date-time parser; the clock plays no part; it fails (`InvalidDateTime`) exactly when the parse fails; the target's wall-clock time at the offset is the parsed one |
| `TimeTarget.ResolveRelative` | src/main.rs:159-163 | any other token ignores the date-time parser; a non-number fails with `MinutesNotANumber`; a number `m` gives now + 60·m seconds, whatever the offset, unless 60·m overflows a u64 |
| `TimeTarget.ResolveMinutes` | src/main.rs:159-163 | a rendered minute count `m` resolves to now + 60·m; the default `AT` of "10" resolves to now + 600 seconds |
| `KhalQuery.KhalArgs` | src/main.rs:165-175 | definition of the `khal` argument vector; its shape is stated by `KhalArgsShape` |
| `KhalQuery.KhalArgsShape` | src/main.rs:165-175 | 16 arguments: the fixed query, then each of the five JSON fields in order, each right after its own `--json`; every other argument after the prefix restores the field list |
| `Strings.ByteLenBounds` | src/main.rs:199 | a string has at least as many bytes as scalar values and at most four times as many; the counts are equal exactly for ASCII text |
| `Strings.GraphemeCountBound` | src/main.rs:199-200 | a grapheme split has no more graphemes than the text has bytes, so a text within the byte budget is within the grapheme budget |
| `Strings.GraphemePrefix` | src/main.rs:200-202 | the concatenation of the first `k` graphemes is a prefix of the text, ending on a grapheme boundary |
| `LinkHarvest.Sort` | src/main.rs:242 | reference definition of sorting, by insertion; stated sorted and a permutation by `SortCorrect` |
| `LinkHarvest.Dedup` | src/main.rs:243 | reference definition of `Vec::dedup`: every element equal to its predecessor dropped; its properties are stated by `DedupSorted` |
| `LinkHarvest.Anchor` | src/main.rs:246 | definition of the `format!` anchor; `AnchorRoundTrip` recovers the URL from it and `AnchorOrder` shows it keeps the URL order |
| `LinkHarvest.Anchors` | src/main.rs:245-247 | definition of the `map(…).collect()` over the URLs: one anchor per URL, index for index; its properties are stated by `LinksCorrect` and `LinksSorted` |
| `LinkHarvest.Links` | src/main.rs:234-248 | reference definition of `find_links`: sort, dedup, wrap each URL in an anchor; its properties are stated by `LinksCorrect`, `LinksComplete` and `LinksSorted` |
| `LinkHarvest.SortCorrect` | src/main.rs:242 | the reference sort is sorted and a permutation of its input |
| `LinkHarvest.SortedUnique` | src/main.rs:242 | two sorted permutations of the same strings are equal, so the unstable library sort gives the reference result |
| `LinkHarvest.DedupSorted` | src/main.rs:243 | deduplicating a sorted list keeps exactly its elements, in strictly increasing order |
| `LinkHarvest.AnchorRoundTrip` | src/main.rs:246 | the URL is recovered from its anchor, so distinct URLs give distinct anchors |
| `LinkHarvest.LinksCorrect` | src/main.rs:234-248 | `find_links` gives one anchor per distinct match; the URLs are strictly increasing; anchors are pairwise distinct; never more anchors than matches |
| `LinkHarvest.LinksComplete` | src/main.rs:234-248 | every match has its anchor in the output |
| `LinkHarvest.AnchorOrder` | src/main.rs:246 | for URLs whose characters all sort after `"`, the anchors are ordered as the URLs are |
| `LinkHarvest.LinksSorted` | src/main.rs:242-247 | when no match holds a character at or below `"`, the anchors themselves come out in strictly increasing order |
| `LinkHarvest.SortUnstable` | src/main.rs:242 | the array is sorted in place and is a permutation of what it held |
| `LinkHarvest.DedupInPlace` | src/main.rs:243 | the kept prefix of the array is the input with every element equal to its predecessor removed |
| `LinkHarvest.FindLinks` | src/main.rs:234-248 | the vector-based implementation returns exactly the reference `Links` of the matches |
| `Description.StripAll` | src/main.rs:194-198 | definition of the strip fold: each pattern in turn, every match removed; its properties are stated by `StripAllInOrder` |
| `Description.ShortDesc` | src/main.rs:199-212 | definition of `short_desc` before the time suffix: the byte-length test, the cut, the ellipsis and the harvested links; its properties are stated by `WithinBudgetUnchanged`, `OverBudgetShape` and `HarvestedLinksCorrect` |
| `Description.HarvestedText` | src/main.rs:200-206 | definition of the text `find_links` receives: the graphemes left after `take(N)` and a further `skip(N)` |
| `Description.WithTimeSuffix` | src/main.rs:213-218 | definition of the time suffix; its properties are stated by `TimeSuffixCorrect` |
| `Description.Body` | src/main.rs:194-218 | definition of the notification body: strip, cut and harvest, then the time suffix |
| `Description.AppendLinks` | src/main.rs:203-208 | the `+=` loop over the links yields the text followed by all the links, in order |
| `Description.StripAllInOrder` | src/main.rs:194-198 | the strip patterns act in list order: an empty list leaves the description unchanged, one pattern is one `replace_all`, and a split list runs its parts one after the other |
| `Description.WithinBudgetUnchanged` | src/main.rs:199-211 | within the byte budget the stripped text is kept whole, with no ellipsis and no links; with no patterns that is the description |
| `Description.OverBudgetShape` | src/main.rs:199-205 | over the budget the text starts with the first min(N, count) whole graphemes, which form a prefix of the stripped text; then comes "..."; then the concatenated anchors for the graphemes from index min(2N, count) on |
| `Description.NoUrlInEmptyText` | src/main.rs:23 | under the matcher assumption, the URL regex finds no match in the empty text |
| `Description.LinksOfMatches` | src/main.rs:234-248 | for matches that are non-empty pieces of a text made of URL characters: each anchor wraps a piece of that text, every match is wrapped, URLs and anchors alike strictly increase, no more anchors than matches |
| `Description.HarvestedLinksCorrect` | src/main.rs:203-209 | links come from the suffix at grapheme 2N; each anchor wraps a non-empty piece of it; every match there is wrapped; URLs and anchors alike strictly increase; no more anchors than matches |
| `Description.TimeSuffixCorrect` | src/main.rs:213-218 | a timed body ends with '\n' and then the time range; exactly one '\n' is added when the text did not already end in one, and none otherwise; the text is kept as a prefix; an all-day body is unchanged |
| `Description.FormatDescription` | src/main.rs:192-218 | the imperative body construction, with its `+=` loop over the links, yields exactly `Body` |
| `Description.ByteBudgetQuirk` | src/main.rs:199 | a text with no more graphemes than the budget, but more bytes, is shown whole followed by "..." |
| `Description.ByteBudgetExample` | src/main.rs:199 | "é" with a budget of 1 becomes "é..." |
| `Description.SkipQuirkExample` | src/main.rs:205 | for "xa.io" with a budget of 1, only ".io" is searched, so the URL "a.io" in the cut part gets no anchor and the text is "x..." |
| `Description.ShortDescIntended` | src/main.rs:199-209 | corrected definition of the cut-and-harvest step: the budget counts graphemes and links come from the whole cut part; its properties are stated by `IntendedCorrect` |
| `Description.IntendedCorrect` | src/main.rs:199-209 | corrected version: text of at most N graphemes is kept whole; longer text is cut after exactly N graphemes; links come from exactly the cut part, every match wrapped |
| `Description.IntendedKeepsLostLink` | src/main.rs:205 | on the "xa.io" example the corrected version searches "a.io" and gives "x..." followed by the anchor for "a.io", the link the program loses |
| `Notify.CompiledStripRegexes` | src/main.rs:146-151 | the strip patterns that compile are kept in their order, each as often as it was given; the others are dropped |
| `Notify.NotificationFor` | src/main.rs:192-225 | definition of the notification one thread sends: `FormattedTitle` and `Body` of its event |
| `Notify.Dispatch` | src/main.rs:187-228 | exactly one notification per event, in event order, each with the formatted title and body |
| `Notify.JoinAll` | src/main.rs:229-231 | when no thread panicked, every join succeeds; otherwise the main thread panics at the first panicked handle, after all earlier joins succeeded |
| `Notify.Run` | src/main.rs:146-228 | of the errors the model keeps, an invalid URL regex comes first and an unresolvable target second; on success the khal arguments use the formatted target, and each event that passes the filter gets its notification, in order |

## Findings

| source | as written | input that shows it | evidently intended | confidence | as-written member | corrected member |
|---|---|---|---|---|---|---|
| src/main.rs:199 | `desc_chars < stripped_desc.len()` compares a character budget with a byte count | description "é" (1 grapheme, 2 bytes) with `--desc-length 1` is shown as "é..." | truncate only when there are more graphemes than the budget | high (proved on the model; not executed) | `Description.ByteBudgetQuirk` | `Description.IntendedCorrect` |
| src/main.rs:205 | `skip(desc_chars)` after `take(desc_chars)` skips N more graphemes before links are searched | description "xa.io" with `--desc-length 1`: only ".io" is searched, so the URL "a.io" gets no anchor | search the whole cut part for links | high (proved on the model; not executed) | `Description.SkipQuirkExample` | `Description.IntendedKeepsLostLink` |

The run in `Notify` uses the formatter as written, because the model describes
what the program does. `Description.ShortDescIntended` is the corrected version
of its cut-and-harvest step, and the two corrected lemmas are proved about it.

## Left out

- Command-line parsing, its defaults and the config-file default (src/main.rs:50-122): plumbing. `Notify.Options` holds the parsed values.
- Parsing `--desc-length` as `usize` and `--timezone` as `i8`, and `UtcOffset::hours` with its range check (src/main.rs:131-145): library parsing. The model takes a natural number and an integer.
- Spawning `khal` and `notify-send` and waiting for them (src/main.rs:165-178, 220-225): process I/O. Their arguments are modelled: `KhalQuery.KhalArgs`, and `Notify.Notification`, which holds the title and the body passed to `notify-send`.
- `serde_json::from_slice` (src/main.rs:180-181): a foreign parser. Events come already parsed.
- Threads and `Arc` (src/main.rs:187-231): the model runs the per-event work one event after another. Each thread only reads shared values, so running them concurrently does not change any notification text.
- The regex engine, the grapheme segmentation, `PrimitiveDateTime::parse`, `OffsetDateTime::format` and the clock: parameters of the model.
- `TimeTarget.ResolveRelative`: treats a `minutes * 60` that overflows a u64 as a panic, as in a debug build. A release build wraps it modulo 2^64 instead.
- `TimeTarget.ResolveRelative`: does not model the panic of `OffsetDateTime + Duration` when the result leaves the supported date range.
- `LinkHarvest.SortUnstable`: sorts by insertion, where the library uses pattern-defeating quicksort. `LinkHarvest.SortedUnique` shows that the result is the same.
- `LinkHarvest.DedupInPlace`: returns the length the vector is truncated to, instead of shrinking the vector.
