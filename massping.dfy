/**
 * One measurement cycle of MassPing.py with its file, process and HTTP edges
 * turned into inputs and outputs: `getpingresults` (lines 102-122) and the
 * data part of `createtabledata` (lines 124-157).
 */
module MassPing {
  import opened Wrappers
  import opened PyText
  import opened Devices
  import opened Roster
  import opened Probe
  import opened Rank
  import opened Encode

  /** The probe lines of an error-stream text, as the loop at line 108 reads them. */
  function ProbeLines(results: string): seq<ProbeLine> {
    ReadLines(SplitOn(results, '\n'))
  }

  /** The value of `getpingresults` for a roster and a probe error stream. */
  function PingResults(lines: seq<string>, results: string, parse: string -> Option<real>)
    : Result<seq<Item>, Error>
  {
    match Load(lines)
    case Failure(e) => Failure(e)
    case Success(roster) =>
      match Attach(roster, ProbeLines(results), parse)
      case Failure(e) => Failure(e)
      case Success(iplist) => SortByRtt(Items(iplist))
  }

  /** `getpingresults`: load the roster, attach the probe results, sort. */
  method GetPingResults(lines: seq<string>, results: string, parse: string -> Option<real>)
    returns (r: Result<seq<Item>, Error>)
    ensures r == PingResults(lines, results, parse)
  {
    var loaded := LoadDeviceFile(lines);
    if loaded.Failure? {
      return Failure(loaded.error);
    }
    var iplist := AttachResults(loaded.value, results, parse);
    if iplist.Failure? {
      return Failure(iplist.error);
    }
    r := SortByRtt(Items(iplist.value));
  }

  /** What one cycle produces: the dashboard's table items and the
      line-protocol payload. */
  datatype Outputs = Outputs(html: seq<HtmlItem>, influxdata: string)

  /** `createtabledata` without the clock and the file write. */
  method CreateTableData(lines: seq<string>, results: string, parse: string -> Option<real>,
                         fmt: real -> string)
    returns (r: Result<Outputs, Error>)
    ensures r.Failure? <==> PingResults(lines, results, parse).Failure?
    ensures r.Failure? ==> r.error == PingResults(lines, results, parse).error
    ensures r.Success? ==>
      && AllHaveResults(PingResults(lines, results, parse).value)
      && LaidOut(PingResults(lines, results, parse).value, r.value.html)
      && r.value.influxdata == Payload(PingResults(lines, results, parse).value, fmt)
  {
    var sorted := GetPingResults(lines, results, parse);
    if sorted.Failure? {
      return Failure(sorted.error);
    }
    SortByRttSpec(Items(Attach(Load(lines).value, ProbeLines(results), parse).value));
    var html, influxdata := CreateTableRows(sorted.value, fmt);
    r := Success(Outputs(html, influxdata));
  }

  /** Joining probe lines to a freshly loaded roster: `items()` lists the
      roster's addresses in roster order, each with its roster metadata and
      exactly the values its probe lines reported. */
  lemma JoinedItems(roster: Table, pls: seq<ProbeLine>, parse: string -> Option<real>)
    requires roster.Valid()
    requires forall a :: a in roster.vals ==> roster.vals[a].rtts == []
    requires Attach(roster, pls, parse).Success?
    ensures var items := Items(Attach(roster, pls, parse).value);
      && |items| == |roster.keys|
      && forall i :: 0 <= i < |items| ==>
           var a := roster.keys[i];
           && a in roster.vals
           && items[i] == Item(a, roster.vals[a].(rtts := ValuesFor(pls, a, parse)))
  {
    AttachAppends(roster, pls, parse);
    assert forall i :: 0 <= i < |roster.keys| ==> roster.keys[i] in roster.vals;
  }

  /** The same for the roster and probe lines of one cycle. */
  lemma AttachedItems(lines: seq<string>, results: string, parse: string -> Option<real>)
    requires Load(lines).Success?
    requires Attach(Load(lines).value, ProbeLines(results), parse).Success?
    ensures var roster := Load(lines).value;
            var items := Items(Attach(roster, ProbeLines(results), parse).value);
      && |items| == |roster.keys|
      && forall i :: 0 <= i < |items| ==>
           var a := roster.keys[i];
           && a in roster.vals
           && items[i] == Item(a, roster.vals[a].(rtts := ValuesFor(ProbeLines(results), a, parse)))
  {
    LoadNoRtts(Rows(lines));
    JoinedItems(Load(lines).value, ProbeLines(results), parse);
  }

  /** A successful cycle returns every roster device exactly once, ordered
      by its first reported RTT, largest first, ties in roster order; each
      keeps its roster metadata and carries the values its probe lines
      reported, the first of which is the sort key. */
  lemma PingResultsSpec(lines: seq<string>, results: string, parse: string -> Option<real>)
    requires PingResults(lines, results, parse).Success?
    ensures Load(lines).Success?
    ensures Attach(Load(lines).value, ProbeLines(results), parse).Success?
    ensures var roster := Load(lines).value;
            var items := Items(Attach(roster, ProbeLines(results), parse).value);
            var r := PingResults(lines, results, parse).value;
      && AllHaveResults(items) && AllHaveResults(r)
      && multiset(r) == multiset(items)
      && NonIncreasing(r)
      && (forall v :: WithRtt(r, v) == WithRtt(items, v))
      && |items| == |roster.keys|
      && (forall i :: 0 <= i < |items| ==>
            var a := roster.keys[i];
            items[i] == Item(a, roster.vals[a].(rtts := ValuesFor(ProbeLines(results), a, parse))))
  {
    AttachedItems(lines, results, parse);
    SortByRttSpec(Items(Attach(Load(lines).value, ProbeLines(results), parse).value));
  }

  /** The sort after a clean join fails exactly when some roster address
      got no probe value, and names such an address. */
  lemma JoinedSortFails(roster: Table, pls: seq<ProbeLine>, parse: string -> Option<real>)
    requires roster.Valid()
    requires forall a :: a in roster.vals ==> roster.vals[a].rtts == []
    requires Attach(roster, pls, parse).Success?
    ensures var r := SortByRtt(Items(Attach(roster, pls, parse).value));
      && (r.Failure? <==> exists a :: a in roster.vals && ValuesFor(pls, a, parse) == [])
      && (r.Failure? ==> r.error.MissingResult? && r.error.address in roster.vals
                         && ValuesFor(pls, r.error.address, parse) == [])
  {
    JoinedItems(roster, pls, parse);
    ItemsSortFails(roster, pls, parse, Items(Attach(roster, pls, parse).value));
  }

  lemma ItemsSortFails(roster: Table, pls: seq<ProbeLine>, parse: string -> Option<real>, items: seq<Item>)
    requires roster.Valid() && |items| == |roster.keys|
    requires forall i :: 0 <= i < |items| ==>
      items[i].address == roster.keys[i] && items[i].entry.rtts == ValuesFor(pls, roster.keys[i], parse)
    ensures var r := SortByRtt(items);
      && (r.Failure? <==> exists a :: a in roster.vals && ValuesFor(pls, a, parse) == [])
      && (r.Failure? ==> r.error.MissingResult? && r.error.address in roster.vals
                         && ValuesFor(pls, r.error.address, parse) == [])
  {
    SortByRttSpec(items);
    if SortByRtt(items).Failure? {
      var i :| && 0 <= i < |items| && !HasResult(items[i])
               && SortByRtt(items).error == MissingResult(items[i].address);
      assert roster.keys[i] in roster.vals;
    } else {
      forall a | a in roster.vals ensures ValuesFor(pls, a, parse) != [] {
        var i :| 0 <= i < |roster.keys| && roster.keys[i] == a;
        assert HasResult(items[i]);
      }
    }
  }

  /** When the roster loads and every probe line is accepted, the cycle
      fails exactly when some roster address got no probe value, and the
      failure names such an address. */
  lemma MissingResultFails(lines: seq<string>, results: string, parse: string -> Option<real>)
    requires Load(lines).Success?
    requires Attach(Load(lines).value, ProbeLines(results), parse).Success?
    ensures PingResults(lines, results, parse).Failure? <==>
      exists a :: a in Load(lines).value.vals && ValuesFor(ProbeLines(results), a, parse) == []
    ensures PingResults(lines, results, parse).Failure? ==>
      && PingResults(lines, results, parse).error.MissingResult?
      && var a := PingResults(lines, results, parse).error.address;
      && a in Load(lines).value.vals && ValuesFor(ProbeLines(results), a, parse) == []
  {
    LoadNoRtts(Rows(lines));
    JoinedSortFails(Load(lines).value, ProbeLines(results), parse);
  }
}
