/** The income-statistics cache of the MCP server (`SCBClient` in
    services/mcp_server/src/ssyk_mcp/scb_api.py): the dictionary written by the
    ingestion pipeline, loaded lazily from income_stats.json on the first lookup and
    kept for the life of the client. Reading the file is a parameter: what
    `json.load` would give, or why it gives nothing. */
module Scb {
  import opened Income
  import IncomePipeline

  /** The decoded file: SSYK code to that code's stats. */
  type IncomeData = map<string, Stats>

  /** What reading income_stats.json yields at the moment of a load. */
  datatype StatsFile =
    | Missing                  // the path does not exist
    | Unreadable               // `open` or `json.load` raised
    | Present(data: IncomeData)

  const ErrorKey: string := "error"
  const CodeKey: string := "ssyk_code"

  function NotFoundMessage(code: string): string {
    "No income data found for SSYK code " + code
  }

  /** The answer for an unknown code or a code with empty stats. */
  function NotFound(code: string): Stats {
    map[ErrorKey := TextStat(NotFoundMessage(code))]
  }

  /** What `get_income_statistics` answers for the loaded data: the error map when
      the code is unknown or its stats are empty, else the stats with "ssyk_code"
      added in front, so that a "ssyk_code" inside the stats wins. */
  function Lookup(data: IncomeData, code: string): (r: Stats)
    ensures code !in data || data[code] == map[] ==> r == NotFound(code)
    ensures code in data && data[code] != map[] ==>
      && r.Keys == data[code].Keys + {CodeKey}
      && (forall key :: key in data[code] ==> r[key] == data[code][key])
      && (CodeKey !in data[code] ==> r[CodeKey] == TextStat(code))
  {
    if code !in data || data[code] == map[] then NotFound(code)
    else map[CodeKey := TextStat(code)] + data[code]
  }

  class SCBClient {
    var data: IncomeData
    var isLoaded: bool

    /** A new client holds nothing and has not loaded yet. */
    constructor ()
      ensures data == map[] && !isLoaded
    {
      data := map[];
      isLoaded := false;
    }

    /** `load_data()`: a missing or unreadable file leaves the client as it was (a
        later lookup tries again); a readable one replaces the data and marks the
        client loaded. */
    method LoadData(file: StatsFile)
      modifies this
      ensures file.Present? ==> data == file.data && isLoaded
      ensures !file.Present? ==> data == old(data) && isLoaded == old(isLoaded)
    {
      if file.Missing? {
        return;
      }
      if file.Unreadable? {
        return;
      }
      data := file.data;
      isLoaded := true;
    }

    /** `get_income_statistics(ssyk_code)`: loads only while not loaded, never
        reloads, and answers from the data held after that. */
    method GetIncomeStatistics(code: string, file: StatsFile) returns (r: Stats)
      modifies this
      ensures old(isLoaded) ==> data == old(data) && isLoaded
      ensures !old(isLoaded) && file.Present? ==> data == file.data && isLoaded
      ensures !old(isLoaded) && !file.Present? ==> data == old(data) && !isLoaded
      ensures r == Lookup(data, code)
    {
      if !isLoaded {
        LoadData(file);
      }
      var stats := if code in data then data[code] else map[];
      if stats == map[] {
        return NotFound(code);
      }
      r := map[CodeKey := TextStat(code)] + stats;
    }
  }

  /** The answer carries "ssyk_code" exactly when the code was found, so the error
      map is never mistaken for a hit. */
  lemma FoundIff(data: IncomeData, code: string)
    ensures CodeKey in Lookup(data, code) <==> code in data && data[code] != map[]
  {
    if code !in data || data[code] == map[] {
      assert Lookup(data, code) == NotFound(code);
      assert CodeKey != ErrorKey;
    }
  }

  /** A client that has not loaded anything answers every code with the error map. */
  lemma EmptyLookup(code: string)
    ensures Lookup(map[], code) == NotFound(code)
    ensures Lookup(map[], code)[ErrorKey] == TextStat(NotFoundMessage(code))
  {
  }

  /** Every code in a dictionary saved by the pipeline is found: its stats always
      hold at least "year". */
  lemma SavedCodesFound(data: IncomeData, code: string)
    requires IncomePipeline.HasYear(data) && code in data
    ensures CodeKey in Lookup(data, code) && "year" in Lookup(data, code)
    ensures Lookup(data, code)["year"] == data[code]["year"]
  {
    assert "year" in data[code];
    FoundIff(data, code);
  }
}
