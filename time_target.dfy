/** Resolution of the `AT` argument into the instant khal is asked about: a
    token with a colon or a space is an absolute local date-time, any other is
    a number of minutes from now. */
module TimeTarget {
  import opened Wrappers
  import opened Seqs

  const U64_MAX: nat := 0xFFFF_FFFF_FFFF_FFFF

  /** The `AT` default: ten minutes from now. */
  const MINUTE_OFFSET: string := "10"

  /** An `OffsetDateTime`: an instant (seconds since the Unix epoch, UTC) and
      the UTC offset, in hours, it is displayed in. */
  datatype Target = Target(unixSeconds: int, offsetHours: int)

  /** The panics of the resolution, one per `expect`. */
  datatype TargetError =
    | InvalidDateTime      // "datetime offset of unexpected format"
    | MinutesNotANumber    // "offset is not a number"
    | MinutesOverflow      // `minutes * 60` does not fit in a u64

  /** The `AT` values joined by single spaces (`intersperse(" ")` and `collect`). */
  function JoinAt(tokens: seq<string>): string
  {
    Concat(Intersperse(tokens, " "))
  }

  /** A single value is taken as it is; two or more always contain a space,
      so they are always read as a date-time. */
  lemma JoinAtShape(tokens: seq<string>)
    ensures |tokens| == 1 ==> JoinAt(tokens) == tokens[0]
    ensures |tokens| >= 2 ==> ' ' in JoinAt(tokens)
  {
    if |tokens| == 1 {
      assert Intersperse(tokens, " ") == [tokens[0]];
      assert Concat([tokens[0]]) == tokens[0] + Concat<char>([]);
    }
    if |tokens| >= 2 {
      var rest := Intersperse(tokens[1..], " ");
      assert Intersperse(tokens, " ") == [tokens[0]] + ([" "] + rest);
      ConcatAppend([tokens[0]], [" "] + rest);
      ConcatAppend([" "], rest);
      assert Concat([tokens[0]]) == tokens[0] + Concat<char>([]);
      assert Concat([" "]) == " " + Concat<char>([]);
      assert JoinAt(tokens) == tokens[0] + " " + Concat(rest);
      assert JoinAt(tokens)[|tokens[0]|] == ' ';
    }
  }

  predicate IsDigit(c: char)
  {
    '0' <= c <= '9'
  }

  function DigitValue(c: char): nat
    requires IsDigit(c)
  {
    c as int - '0' as int
  }

  predicate AllDigits(s: string)
  {
    forall i :: 0 <= i < |s| ==> IsDigit(s[i])
  }

  /** The number a string of decimal digits spells, most significant first. */
  function DigitsValue(s: string): nat
    requires AllDigits(s)
  {
    if s == [] then 0 else 10 * DigitsValue(s[..|s| - 1]) + DigitValue(s[|s| - 1])
  }

  /** `str::parse::<u64>()`: an optional `+`, then one or more decimal
      digits whose value fits in 64 bits; anything else is an error (a `-`
      sign included, the type being unsigned). */
  function ParseU64(s: string): (r: Option<nat>)
    ensures r.Some? ==> r.value <= U64_MAX
  {
    var digits := if s != [] && s[0] == '+' then s[1..] else s;
    if digits == [] || !AllDigits(digits) then None
    else if DigitsValue(digits) > U64_MAX then None
    else Some(DigitsValue(digits))
  }

  /** What `parse::<u64>()` refuses ("offset is not a number"): the empty
      string, a lone '+', and any string with a character that is not a
      decimal digit, other than one leading '+'. */
  lemma ParseU64Rejects(s: string, k: nat)
    requires k < |s| && !IsDigit(s[k]) && !(k == 0 && s[k] == '+')
    ensures ParseU64(s) == None
    ensures ParseU64("") == None && ParseU64("+") == None
  {
    if s[0] == '+' {
      assert s[1..][k - 1] == s[k];
    }
  }

  /** The decimal rendering of `n`, without sign or leading zeros. */
  function DecimalString(n: nat): (s: string)
    ensures s != [] && AllDigits(s)
  {
    if n < 10 then ['0' + n as char] else DecimalString(n / 10) + ['0' + (n % 10) as char]
  }

  lemma {:induction false} DigitsValueOfDecimal(n: nat)
    ensures DigitsValue(DecimalString(n)) == n
  {
    if n >= 10 {
      DigitsValueOfDecimal(n / 10);
      var s := DecimalString(n);
      assert s[..|s| - 1] == DecimalString(n / 10);
    }
  }

  /** Round trip: every u64 parses back from its decimal rendering. */
  lemma ParseDecimal(n: nat)
    requires n <= U64_MAX
    ensures ParseU64(DecimalString(n)) == Some(n)
  {
    DigitsValueOfDecimal(n);
  }

  /** A token is read as a date-time when it contains ':' or ' '. */
  predicate IsAbsolute(at: string)
  {
    ':' in at || ' ' in at
  }

  /** The `target` of the main routine. `parseDateTime` stands for
      `PrimitiveDateTime::parse(at, "%F %R")`: the wall-clock time it reads,
      in seconds since 1970-01-01 00:00, or `None`. `nowUnix` stands for
      `OffsetDateTime::now_utc()`. */
  function Resolve(at: string, nowUnix: int, offsetHours: int,
                   parseDateTime: string -> Option<int>): Result<Target, TargetError>
  {
    if IsAbsolute(at) then
      match parseDateTime(at)
      case None => Err(InvalidDateTime)
      case Some(local) => Ok(Target(local - 3600 * offsetHours, offsetHours))  // assume_offset
    else
      match ParseU64(at)
      case None => Err(MinutesNotANumber)
      case Some(minutes) =>
        if minutes * 60 > U64_MAX then Err(MinutesOverflow)
        else Ok(Target(nowUnix + minutes * 60, offsetHours))  // to_offset, then + Duration
  }

  /** A token with ':' or ' ' goes to the date-time parser only: the clock
      and the minute parser play no part, it fails exactly when the parse
      fails, and the target shows the parsed wall-clock time at the given
      offset. */
  lemma ResolveAbsolute(at: string, now1: int, now2: int, offsetHours: int,
                        parseDateTime: string -> Option<int>)
    requires IsAbsolute(at)
    ensures Resolve(at, now1, offsetHours, parseDateTime) == Resolve(at, now2, offsetHours, parseDateTime)
    ensures Resolve(at, now1, offsetHours, parseDateTime).Err? <==> parseDateTime(at).None?
    ensures Resolve(at, now1, offsetHours, parseDateTime).Err? ==>
              Resolve(at, now1, offsetHours, parseDateTime).error == InvalidDateTime
    ensures parseDateTime(at).Some? ==>
              var t := Resolve(at, now1, offsetHours, parseDateTime).value;
              t.offsetHours == offsetHours && t.unixSeconds + 3600 * offsetHours == parseDateTime(at).value
  {
  }

  /** Any other token is a minute count: the date-time parser plays no part,
      a token that is not a u64 fails with `MinutesNotANumber`, and a u64 `m`
      gives `now + 60 * m` seconds, whatever the offset, unless `60 * m`
      overflows. */
  lemma ResolveRelative(at: string, nowUnix: int, offsetHours: int, otherOffset: int,
                        parseDateTime: string -> Option<int>, otherParse: string -> Option<int>)
    requires !IsAbsolute(at)
    ensures Resolve(at, nowUnix, offsetHours, parseDateTime) == Resolve(at, nowUnix, offsetHours, otherParse)
    ensures Resolve(at, nowUnix, offsetHours, parseDateTime) == Err(MinutesNotANumber) <==> ParseU64(at).None?
    ensures ParseU64(at).Some? ==>
              var m := ParseU64(at).value;
              && (m * 60 > U64_MAX <==> Resolve(at, nowUnix, offsetHours, parseDateTime) == Err(MinutesOverflow))
              && (m * 60 <= U64_MAX ==>
                    Resolve(at, nowUnix, offsetHours, parseDateTime) == Ok(Target(nowUnix + 60 * m, offsetHours))
                    && Resolve(at, nowUnix, offsetHours, parseDateTime).value.unixSeconds
                       == Resolve(at, nowUnix, otherOffset, parseDateTime).value.unixSeconds)
  {
  }

  /** Round trip from the other side: the decimal rendering of a minute count
      `m` resolves to `m` minutes from now; the default `AT` is ten minutes. */
  lemma ResolveMinutes(m: nat, nowUnix: int, offsetHours: int, parseDateTime: string -> Option<int>)
    requires m * 60 <= U64_MAX
    ensures Resolve(DecimalString(m), nowUnix, offsetHours, parseDateTime) == Ok(Target(nowUnix + 60 * m, offsetHours))
    ensures Resolve(JoinAt([MINUTE_OFFSET]), nowUnix, offsetHours, parseDateTime) == Ok(Target(nowUnix + 600, offsetHours))
  {
    ParseDecimal(m);
    assert !IsAbsolute(DecimalString(m)) by {
      var s := DecimalString(m);
      assert forall i :: 0 <= i < |s| ==> s[i] != ':' && s[i] != ' ';
    }
    JoinAtShape([MINUTE_OFFSET]);
    ParseDecimal(10);
    assert DecimalString(10) == MINUTE_OFFSET;
  }
}
