/** The main routine without its process and thread plumbing: resolve the
    target, build the khal query, filter the events khal returned, and give
    every remaining event one notification, in order. */
module Notify {
  import opened Wrappers
  import opened Seqs
  import opened Events
  import opened TimeTarget
  import opened KhalQuery
  import opened Description

  /** The two arguments one `notify-send` call receives: the title and the
      body. */
  datatype Notification = Notification(title: string, body: string)

  /** The library calls and the clock the program depends on, as values. */
  datatype Env = Env(
    nowUnix: int,                                // OffsetDateTime::now_utc()
    regexCompiles: string -> bool,               // Regex::new(p).is_ok()
    removeAll: (string, string) -> string,       // Regex::new(p).replace_all(d, "")
    findAll: (string, string) -> seq<string>,    // whole matches of captures_iter
    graphemes: string -> seq<string>,            // graphemes(true)
    parseDateTime: string -> Option<int>,        // PrimitiveDateTime::parse(at, "%F %R")
    formatTarget: (Target, string) -> string)    // OffsetDateTime::format(fmt)

  /** The command line, already parsed (`desc_chars` and the UTC offset as
      numbers). */
  datatype Options = Options(
    config: string,
    descChars: nat,
    includeAllDay: bool,
    dateFormat: string,
    timeFormat: string,
    utcOffsetHours: int,
    stripRegexes: seq<string>,
    at: seq<string>)

  /** `i.map(Regex::new).flatten().collect()`: the strip patterns that
      compile, in the order given; the others are dropped without a word. */
  function CompiledStripRegexes(patterns: seq<string>, compiles: string -> bool): (r: seq<string>)
    ensures IsSubsequence(r, patterns)
    ensures forall p :: p in r <==> p in patterns && compiles(p)
    ensures forall p :: multiset(r)[p] == if compiles(p) then multiset(patterns)[p] else 0
  {
    if patterns == [] then []
    else
      assert patterns == [patterns[0]] + patterns[1..];
      if compiles(patterns[0]) then [patterns[0]] + CompiledStripRegexes(patterns[1..], compiles)
      else
        var rest := CompiledStripRegexes(patterns[1..], compiles);
        assert rest != [] ==> rest[0] in patterns[1..];
        rest
  }

  /** The notification the thread for `event` sends. */
  function NotificationFor(event: KhalEvent, stripRegexes: seq<string>, descChars: nat, env: Env): Notification
  {
    Notification(FormattedTitle(event),
                 Body(event, stripRegexes, descChars, env.removeAll, env.findAll, env.graphemes))
  }

  /** The spawn loop: one notification per event, in the order of the
      events. */
  method Dispatch(events: seq<KhalEvent>, stripRegexes: seq<string>, descChars: nat, env: Env)
    returns (sent: seq<Notification>)
    ensures |sent| == |events|
    ensures forall i :: 0 <= i < |events| ==> sent[i] == NotificationFor(events[i], stripRegexes, descChars, env)
  {
    sent := [];
    for i := 0 to |events|
      invariant |sent| == i
      invariant forall k :: 0 <= k < i ==> sent[k] == NotificationFor(events[k], stripRegexes, descChars, env)
    {
      var event := events[i];
      var title := FormattedTitle(event);
      var body := FormatDescription(event, stripRegexes, descChars, env.removeAll, env.findAll, env.graphemes);
      sent := sent + [Notification(title, body)];
    }
  }

  /** The join loop over the thread handles, given which threads panicked:
      handles are joined in spawn order and the first one that panicked makes
      the main thread panic (`None` means every join succeeded). */
  method JoinAll(panicked: seq<bool>) returns (failedAt: Option<nat>)
    ensures failedAt.None? <==> forall i :: 0 <= i < |panicked| ==> !panicked[i]
    ensures failedAt.Some? ==>
              && failedAt.value < |panicked| && panicked[failedAt.value]
              && forall j :: 0 <= j < failedAt.value ==> !panicked[j]
  {
    for i := 0 to |panicked|
      invariant forall j :: 0 <= j < i ==> !panicked[j]
    {
      if panicked[i] {
        return Some(i);
      }
    }
    return None;
  }

  datatype RunError =
    | UrlRegexInvalid            // Regex::new(URL_REGEX).unwrap()
    | BadTarget(TargetError)

  datatype RunOutput = RunOutput(khalArgs: seq<string>, notifications: seq<Notification>)

  /** One run: `khalEvents` is the parsed output of the khal call whose
      arguments are returned. */
  method Run(opts: Options, env: Env, khalEvents: seq<KhalEvent>) returns (r: Result<RunOutput, RunError>)
    ensures !env.regexCompiles(URL_REGEX) ==> r == Err(UrlRegexInvalid)
    ensures env.regexCompiles(URL_REGEX) ==>
              var target := Resolve(JoinAt(opts.at), env.nowUnix, opts.utcOffsetHours, env.parseDateTime);
              && (target.Err? ==> r == Err(BadTarget(target.error)))
              && (target.Ok? ==> r.Ok?)
    ensures r.Ok? ==>
              var target := Resolve(JoinAt(opts.at), env.nowUnix, opts.utcOffsetHours, env.parseDateTime).value;
              var events := SelectEvents(khalEvents, opts.includeAllDay);
              var strip := CompiledStripRegexes(opts.stripRegexes, env.regexCompiles);
              && r.value.khalArgs == KhalArgs(opts.config, env.formatTarget(target, opts.dateFormat),
                                              env.formatTarget(target, opts.timeFormat))
              && |r.value.notifications| == |events|
              && forall i :: 0 <= i < |events| ==>
                   r.value.notifications[i] == NotificationFor(events[i], strip, opts.descChars, env)
  {
    var stripRegexes := CompiledStripRegexes(opts.stripRegexes, env.regexCompiles);
    if !env.regexCompiles(URL_REGEX) {
      return Err(UrlRegexInvalid);
    }
    var at := JoinAt(opts.at);
    var target := Resolve(at, env.nowUnix, opts.utcOffsetHours, env.parseDateTime);
    if target.Err? {
      return Err(BadTarget(target.error));
    }
    var args := KhalArgs(opts.config, env.formatTarget(target.value, opts.dateFormat),
                         env.formatTarget(target.value, opts.timeFormat));
    var events := khalEvents;
    if !opts.includeAllDay {
      events := WithoutAllDay(events);
    }
    var sent := Dispatch(events, stripRegexes, opts.descChars, env);
    r := Ok(RunOutput(args, sent));
  }
}
