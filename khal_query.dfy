/** The argument vector of the `khal` invocation: the query for events that
    have not started at the target time, with JSON output restricted to the
    five fields a `KhalEvent` has. */
module KhalQuery {
  import opened Seqs

  const JSON_FIELDS: seq<string> :=
    ["title", "description", "start-end-time-style", "repeat-symbol", "all-day"]

  /** The fixed part, up to and including the first `--json`. */
  function QueryPrefix(config: string, date: string, time: string): seq<string>
  {
    ["--config", config, "at", date, time, "--notstarted", "--json"]
  }

  /** `args(&[...])` followed by `args(JSON_FIELDS.intersperse("--json"))`;
      `date` and `time` are the target formatted with the date and time
      formats. */
  function KhalArgs(config: string, date: string, time: string): seq<string>
  {
    QueryPrefix(config, date, time) + Intersperse(JSON_FIELDS, "--json")
  }

  /** Every JSON field is requested, in order, each right after its own
      `--json`, and nothing follows the last field. */
  lemma KhalArgsShape(config: string, date: string, time: string)
    ensures |KhalArgs(config, date, time)| == 7 + 2 * |JSON_FIELDS| - 1
    ensures KhalArgs(config, date, time)[..7] == QueryPrefix(config, date, time)
    ensures forall i :: 0 <= i < |JSON_FIELDS| ==>
              KhalArgs(config, date, time)[6 + 2 * i] == "--json"
              && KhalArgs(config, date, time)[7 + 2 * i] == JSON_FIELDS[i]
    ensures Evens(KhalArgs(config, date, time)[7..]) == JSON_FIELDS
  {
    var args := KhalArgs(config, date, time);
    var tail := Intersperse(JSON_FIELDS, "--json");
    IntersperseLength(JSON_FIELDS, "--json");
    assert args[7..] == tail;
    forall i | 0 <= i < |JSON_FIELDS|
      ensures args[6 + 2 * i] == "--json" && args[7 + 2 * i] == JSON_FIELDS[i]
    {
      IntersperseEven(JSON_FIELDS, "--json", i);
      assert args[7 + 2 * i] == tail[2 * i];
      if i > 0 {
        IntersperseOdd(JSON_FIELDS, "--json", i - 1);
        assert args[6 + 2 * i] == tail[2 * (i - 1) + 1];
      }
    }
    EvensIntersperse(JSON_FIELDS, "--json");
  }
}
