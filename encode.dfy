/**
 * The loop of `createtabledata` (MassPing.py:128-152): one InfluxDB
 * line-protocol record per sorted entry, joined with newlines, and the
 * dashboard's sequence of table cells, where a column counter puts a row
 * break in place of the cell of every entry whose nonzero index is a
 * multiple of 20.
 */
module Encode {
  import opened Wrappers
  import opened PyText
  import opened Devices
  import opened Tiers
  import opened Rank

  /** `htmlcolumncount`. */
  const HtmlColumnCount: nat := 20

  /** The record of line 135; `fmt` is Python's str(float). */
  function Record(it: Item, fmt: real -> string): string
    requires HasResult(it)
  {
    "ping,host=" + it.address + ",location=" + it.entry.location
      + ",function=" + it.entry.role + " rtt=" + fmt(Rtt(it))
  }

  /** The records of a batch, in batch order. */
  function Records(s: seq<Item>, fmt: real -> string): (r: seq<string>)
    requires AllHaveResults(s)
    ensures |r| == |s| && forall i :: 0 <= i < |s| ==> r[i] == Record(s[i], fmt)
    decreases |s|
  {
    if s == [] then [] else Records(s[..|s| - 1], fmt) + [Record(s[|s| - 1], fmt)]
  }

  /** The payload `'\n'.join(influxdata)` of line 152. */
  function Payload(s: seq<Item>, fmt: real -> string): string
    requires AllHaveResults(s)
  {
    Join("\n", Records(s, fmt))
  }

  /** What a reader of a record gets back: tags and the rtt field's text. */
  datatype Reading = Reading(host: string, location: string, role: string, rtt: string)

  function ReadingOf(it: Item, fmt: real -> string): Reading
    requires HasResult(it)
  {
    Reading(it.address, it.entry.location, it.entry.role, fmt(Rtt(it)))
  }

  /** Index of the first c in s, or |s|. */
  function IndexOf(s: string, c: char): (k: nat)
    ensures k <= |s|
    ensures forall j :: 0 <= j < k ==> s[j] != c
    ensures k < |s| ==> s[k] == c
    decreases |s|
  {
    if s == [] || s[0] == c then 0 else 1 + IndexOf(s[1..], c)
  }

  /** A reader for the records of line 135: tags up to the next `,`,
      `function` up to the space before the field. */
  function DecodeRecord(line: string): Option<Reading> {
    if "ping,host=" <= line then DecodeHost(line[10..]) else None
  }

  function DecodeHost(a: string): Option<Reading> {
    var i := IndexOf(a, ',');
    if i < |a| && "location=" <= a[i + 1..] then DecodeLocation(a[..i], a[i + 1..][9..]) else None
  }

  function DecodeLocation(host: string, b: string): Option<Reading> {
    var j := IndexOf(b, ',');
    if j < |b| && "function=" <= b[j + 1..] then DecodeRole(host, b[..j], b[j + 1..][9..]) else None
  }

  function DecodeRole(host: string, location: string, c: string): Option<Reading> {
    var k := IndexOf(c, ' ');
    if k < |c| && "rtt=" <= c[k + 1..] then Some(Reading(host, location, c[..k], c[k + 1..][4..])) else None
  }

  function DecodeAll(lines: seq<string>): (r: seq<Option<Reading>>)
    ensures |r| == |lines|
  {
    seq(|lines|, i requires 0 <= i < |lines| => DecodeRecord(lines[i]))
  }

  /** Splits a payload at newlines and reads every record. */
  function DecodePayload(payload: string): seq<Option<Reading>> {
    DecodeAll(SplitOn(payload, '\n'))
  }

  lemma IndexOfCat(p: string, c: char, t: string)
    requires c !in p
    ensures IndexOf(p + [c] + t, c) == |p|
    ensures (p + [c] + t)[..|p|] == p && (p + [c] + t)[|p| + 1..] == t
  {
    assert (p + [c] + t)[|p|] == c;
  }

  lemma PrefixCat(p: string, t: string)
    ensures p <= p + t && (p + t)[|p|..] == t
  {
  }

  lemma DecodeRoleOf(host: string, location: string, role: string, v: string)
    requires ' ' !in role
    ensures DecodeRole(host, location, role + [' '] + ("rtt=" + v)) == Some(Reading(host, location, role, v))
  {
    IndexOfCat(role, ' ', "rtt=" + v);
    PrefixCat("rtt=", v);
  }

  lemma DecodeLocationOf(host: string, location: string, role: string, v: string)
    requires ',' !in location && ' ' !in role
    ensures DecodeLocation(host, location + [','] + ("function=" + (role + [' '] + ("rtt=" + v))))
         == Some(Reading(host, location, role, v))
  {
    var c := role + [' '] + ("rtt=" + v);
    IndexOfCat(location, ',', "function=" + c);
    PrefixCat("function=", c);
    DecodeRoleOf(host, location, role, v);
  }

  lemma DecodeHostOf(host: string, location: string, role: string, v: string)
    requires ',' !in host && ',' !in location && ' ' !in role
    ensures DecodeHost(host + [','] + ("location=" + (location + [','] + ("function=" + (role + [' '] + ("rtt=" + v))))))
         == Some(Reading(host, location, role, v))
  {
    var b := location + [','] + ("function=" + (role + [' '] + ("rtt=" + v)));
    IndexOfCat(host, ',', "location=" + b);
    PrefixCat("location=", b);
    DecodeLocationOf(host, location, role, v);
  }

  /** Text of the form `h A d1 B d2 C d3 V`, where each delimiter di is a
      character ci followed by a word wi, regrouped around the ci. */
  lemma Regroup(h: string, a: string, d1: string, c1: char, w1: string,
                b: string, d2: string, c2: char, w2: string,
                c: string, d3: string, c3: char, w3: string, v: string)
    requires d1 == [c1] + w1 && d2 == [c2] + w2 && d3 == [c3] + w3
    ensures h + a + d1 + b + d2 + c + d3 + v
         == h + (a + [c1] + (w1 + (b + [c2] + (w2 + (c + [c3] + (w3 + v))))))
  {
    var r3 := c + [c3] + (w3 + v);
    assert c + d3 + v == r3;
    var r2 := b + [c2] + (w2 + r3);
    assert b + d2 + (c + d3 + v) == r2;
    var r1 := a + [c1] + (w1 + r2);
    assert a + d1 + (b + d2 + (c + d3 + v)) == r1;
  }

  /** The record text regrouped around its three delimiters. */
  lemma RecordShape(ad: string, lo: string, ro: string, v: string)
    ensures "ping,host=" + ad + ",location=" + lo + ",function=" + ro + " rtt=" + v
         == "ping,host=" + (ad + [','] + ("location=" + (lo + [','] + ("function=" + (ro + [' '] + ("rtt=" + v))))))
  {
    Regroup("ping,host=", ad, ",location=", ',', "location=", lo, ",function=", ',', "function=",
            ro, " rtt=", ' ', "rtt=", v);
  }

  /** A record reads back as its address, location, function and RTT text
      (the hostname is not part of it) when no tag value contains the
      delimiter that ends it. */
  lemma RecordRoundTrip(it: Item, fmt: real -> string)
    requires HasResult(it)
    requires ',' !in it.address && ',' !in it.entry.location && ' ' !in it.entry.role
    ensures DecodeRecord(Record(it, fmt)) == Some(ReadingOf(it, fmt))
  {
    var ad, lo, ro, v := it.address, it.entry.location, it.entry.role, fmt(Rtt(it));
    var a := ad + [','] + ("location=" + (lo + [','] + ("function=" + (ro + [' '] + ("rtt=" + v)))));
    RecordShape(ad, lo, ro, v);
    PrefixCat("ping,host=", a);
    DecodeHostOf(ad, lo, ro, v);
  }

  /** Line-protocol whitespace and delimiter conditions a roster entry meets
      when its tags hold no `,` and its RTT text no newline. */
  predicate Encodable(it: Item, fmt: real -> string)
    requires HasResult(it)
  {
    && ',' !in it.address && '\n' !in it.address
    && ',' !in it.entry.location && '\n' !in it.entry.location
    && ' ' !in it.entry.role && '\n' !in it.entry.role
    && '\n' !in fmt(Rtt(it))
  }

  /** The payload holds exactly one record per entry, in batch order, down
      entries included: reading it back gives every entry's tags and RTT. */
  lemma PayloadRoundTrip(s: seq<Item>, fmt: real -> string)
    requires |s| >= 1 && AllHaveResults(s)
    requires forall i :: 0 <= i < |s| ==> Encodable(s[i], fmt)
    ensures |DecodePayload(Payload(s, fmt))| == |s|
    ensures forall i :: 0 <= i < |s| ==> DecodePayload(Payload(s, fmt))[i] == Some(ReadingOf(s[i], fmt))
  {
    var recs := Records(s, fmt);
    forall i | 0 <= i < |recs| ensures '\n' !in recs[i] {
      assert recs[i] == Record(s[i], fmt);
    }
    SplitOfJoin(recs, '\n');
    forall i | 0 <= i < |s| ensures DecodePayload(Payload(s, fmt))[i] == Some(ReadingOf(s[i], fmt)) {
      RecordRoundTrip(s[i], fmt);
    }
  }

  /** One dashboard table item: a device cell (its template and link are
      static text) or the `</tr><tr>` row break. */
  datatype HtmlItem = Cell(tier: Tier, hostname: string, address: string, rtt: real) | RowBreak

  function CellFor(it: Item): HtmlItem
    requires HasResult(it)
  {
    Cell(Classify(Rtt(it)), it.entry.hostname, it.address, Rtt(it))
  }

  /** The positions where the column counter has reached 20. */
  predicate IsRowBreakAt(i: nat) {
    i > 0 && i % HtmlColumnCount == 0
  }

  /** The items the loop emits for batch s: a row break at every position
      i > 0 with i % 20 == 0, the entry's own cell everywhere else. */
  ghost predicate LaidOut(s: seq<Item>, items: seq<HtmlItem>)
    requires AllHaveResults(s)
  {
    && |items| == |s|
    && forall i :: 0 <= i < |s| ==> items[i] == if IsRowBreakAt(i) then RowBreak else CellFor(s[i])
  }

  /** The items emitted for the first i entries of s. */
  ghost predicate LaidOutUpTo(s: seq<Item>, items: seq<HtmlItem>, i: nat)
    requires AllHaveResults(s) && i <= |s|
  {
    && |items| == i
    && forall k :: 0 <= k < i ==> items[k] == if IsRowBreakAt(k) then RowBreak else CellFor(s[k])
  }

  /** The counter `columncount` before the entry at index i, and how one
      iteration moves it. */
  lemma CounterStep(i: nat, columncount: int)
    requires columncount == if i == 0 then 0 else (i - 1) % HtmlColumnCount + 1
    ensures columncount == HtmlColumnCount <==> IsRowBreakAt(i)
    ensures (if columncount == HtmlColumnCount then 0 else columncount) + 1 == i % HtmlColumnCount + 1
  {
  }

  /** One iteration of the layout loop: the record and the item of entry i. */
  lemma LayoutStep(s: seq<Item>, items: seq<HtmlItem>, records: seq<string>, i: nat, item: HtmlItem,
                   fmt: real -> string)
    requires AllHaveResults(s) && i < |s|
    requires LaidOutUpTo(s, items, i) && records == Records(s[..i], fmt)
    requires item == if IsRowBreakAt(i) then RowBreak else CellFor(s[i])
    ensures LaidOutUpTo(s, items + [item], i + 1)
    ensures records + [Record(s[i], fmt)] == Records(s[..i + 1], fmt)
  {
    assert s[..i + 1][..i] == s[..i];
  }

  /** The loop of `createtabledata` over the sorted entries. */
  method CreateTableRows(sorted: seq<Item>, fmt: real -> string)
    returns (html: seq<HtmlItem>, influxdata: string)
    requires AllHaveResults(sorted)
    ensures LaidOut(sorted, html)
    ensures influxdata == Payload(sorted, fmt)
  {
    html := [];
    var records: seq<string> := [];
    var columncount := 0;
    var i := 0;
    while i < |sorted|
      invariant 0 <= i <= |sorted|
      invariant LaidOutUpTo(sorted, html, i)
      invariant records == Records(sorted[..i], fmt)
      invariant columncount == if i == 0 then 0 else (i - 1) % HtmlColumnCount + 1
    {
      var key := sorted[i];
      var rtt := key.entry.rtts[0];
      var influxentry := "ping,host=" + key.address + ",location=" + key.entry.location
                         + ",function=" + key.entry.role + " rtt=" + fmt(rtt);
      var tabledata;
      if rtt == Sentinel {
        tabledata := Cell(Down, key.entry.hostname, key.address, rtt);
      } else if rtt > WarningRatio {
        tabledata := Cell(Warning, key.entry.hostname, key.address, rtt);
      } else {
        tabledata := Cell(Up, key.entry.hostname, key.address, rtt);
      }
      assert influxentry == Record(key, fmt);
      assert tabledata == CellFor(key);
      CounterStep(i, columncount);
      ghost var item := if IsRowBreakAt(i) then RowBreak else CellFor(sorted[i]);
      LayoutStep(sorted, html, records, i, item, fmt);
      records := records + [influxentry];
      if columncount == HtmlColumnCount {
        html := html + [RowBreak];
        columncount := 0;
      } else {
        html := html + [tabledata];
      }
      columncount := columncount + 1;
      i := i + 1;
    }
    assert sorted[..i] == sorted;
    influxdata := Join("\n", records);
  }

  /** The number of device cells among the items. */
  function CellCount(items: seq<HtmlItem>): nat
    decreases |items|
  {
    if items == [] then 0
    else CellCount(items[..|items| - 1]) + (if items[|items| - 1].Cell? then 1 else 0)
  }

  lemma {:induction false} BreakPatternCount(items: seq<HtmlItem>)
    requires |items| >= 1
    requires forall i :: 0 <= i < |items| ==> (items[i].RowBreak? <==> IsRowBreakAt(i))
    ensures CellCount(items) == |items| - (|items| - 1) / HtmlColumnCount
    decreases |items|
  {
    var n := |items|;
    if n > 1 {
      var p := items[..n - 1];
      forall i | 0 <= i < |p| ensures p[i].RowBreak? <==> IsRowBreakAt(i) {
        assert p[i] == items[i];
      }
      BreakPatternCount(p);
      var q := (n - 2) / 20;
      var r := (n - 2) % 20;
      assert n - 2 == 20 * q + r;
      if r == 19 {
        assert n - 1 == 20 * (q + 1);
        assert (n - 1) / 20 == q + 1;
      } else {
        assert n - 1 == 20 * q + (r + 1);
        assert (n - 1) / 20 == q;
      }
    }
  }

  /** n entries give n - (n - 1) / 20 cells: 20 in the first row and 19 in
      every later one, the device at each break position getting none. */
  lemma LaidOutCellCount(s: seq<Item>, items: seq<HtmlItem>)
    requires |s| >= 1 && AllHaveResults(s) && LaidOut(s, items)
    ensures CellCount(items) == |s| - (|s| - 1) / HtmlColumnCount
  {
    BreakPatternCount(items);
  }

  /** With distinct addresses, the device at a break position is missing
      from the dashboard altogether. */
  lemma RowBreakHidesDevice(s: seq<Item>, items: seq<HtmlItem>, i: nat)
    requires AllHaveResults(s) && LaidOut(s, items)
    requires forall j, k :: 0 <= j < k < |s| ==> s[j].address != s[k].address
    requires i < |s| && IsRowBreakAt(i)
    ensures forall j :: 0 <= j < |items| && items[j].Cell? ==> items[j].address != s[i].address
  {
    forall j | 0 <= j < |items| && items[j].Cell? ensures items[j].address != s[i].address {
      assert items[j] == CellFor(s[j]);
      assert j != i;
    }
  }
}
