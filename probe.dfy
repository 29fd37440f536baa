/**
 * The probe-result stage of `getpingresults` (MassPing.py:107-119): the
 * probe's error stream is split at newlines, every non-empty line must match
 * the regular expression `(\S+) \((\S+)\)\s+\:\s(\S+)` and the matched value
 * is appended to the roster entry of the matched address, `-` as 9999 and
 * anything else as the number `float()` makes of it.
 */
module Probe {
  import opened Wrappers
  import opened PyText
  import opened Devices

  /** The three groups of a successful match. */
  datatype ProbeMatch = ProbeMatch(host: string, address: string, value: string)

  /** The end of the run of whitespace (space) or non-whitespace (!space)
      characters that starts at index i. */
  function SpanEnd(s: string, i: nat, space: bool): (j: nat)
    requires i <= |s|
    ensures i <= j <= |s|
    ensures forall k :: i <= k < j ==> IsSpace(s[k]) == space
    ensures j == |s| || IsSpace(s[j]) != space
    decreases |s| - i
  {
    if i == |s| || IsSpace(s[i]) != space then i else SpanEnd(s, i + 1, space)
  }

  lemma SpanEndIs(s: string, i: nat, j: nat, space: bool)
    requires i <= j <= |s|
    requires forall k :: i <= k < j ==> IsSpace(s[k]) == space
    requires j == |s| || IsSpace(s[j]) != space
    ensures SpanEnd(s, i, space) == j
  {
  }

  /** `re.match(r"(\S+) \((\S+)\)\s+\:\s(\S+)", line)`. Every quantified part
      of the pattern can end at only one place: `(\S+) ` at the first
      whitespace, `(\S+)\)` at the last character of the following
      non-whitespace run (which must be `)`), `\s+` where `:` starts and the
      final `(\S+)` at the end of its run, so no backtracking is needed. */
  function Match(s: string): Option<ProbeMatch> {
    AfterHost(s, SpanEnd(s, 0, false))
  }

  /** `(\S+)` ended at h; next must come ` (`. */
  function AfterHost(s: string, h: nat): Option<ProbeMatch>
    requires h <= |s|
  {
    if h == 0 || h + 1 >= |s| || s[h] != ' ' || s[h + 1] != '(' then None
    else AfterAddress(s, h, SpanEnd(s, h + 2, false))
  }

  /** The run after `(` ended at e; its last character must be `)`. */
  function AfterAddress(s: string, h: nat, e: nat): Option<ProbeMatch>
    requires 0 < h && h + 2 <= e <= |s|
  {
    if e < h + 4 || e == |s| || s[e - 1] != ')' then None
    else AfterBlank(s, h, e, SpanEnd(s, e, true))
  }

  /** `\s+` ended at w; next must come `:` and one whitespace character. */
  function AfterBlank(s: string, h: nat, e: nat, w: nat): Option<ProbeMatch>
    requires 0 < h && h + 4 <= e <= w <= |s|
  {
    if w + 1 >= |s| || s[w] != ':' || !IsSpace(s[w + 1]) then None
    else AfterColon(s, h, e, w, SpanEnd(s, w + 2, false))
  }

  /** The final `(\S+)` ended at v and must not be empty. */
  function AfterColon(s: string, h: nat, e: nat, w: nat, v: nat): Option<ProbeMatch>
    requires 0 < h && h + 4 <= e <= w && w + 2 <= v <= |s|
  {
    if v == w + 2 then None
    else Some(ProbeMatch(s[..h], s[h + 2..e - 1], s[w + 2..v]))
  }

  /** The pattern read declaratively: s is `host (address)`, a run of
      whitespace, `:`, one whitespace character and the value, followed by
      nothing or by text that starts with whitespace (re.match anchors only
      the start, and the last group is greedy). */
  ghost predicate Decomposes(s: string, m: ProbeMatch, ws: string, c: char, rest: string) {
    && s == m.host + " (" + m.address + ")" + ws + ":" + [c] + m.value + rest
    && IsToken(m.host) && IsToken(m.address) && IsBlank(ws) && IsSpace(c) && IsToken(m.value)
    && (rest == [] || IsSpace(rest[0]))
  }

  /** The pattern's pieces located by index: host s[..h], ` (` at h,
      the address up to the `)` at e - 1, whitespace s[e..w], `:` at w, one
      whitespace character at w + 1 and the value s[w + 2..v]. */
  ghost predicate MatchedAt(s: string, m: ProbeMatch, h: nat, e: nat, w: nat, v: nat) {
    && 0 < h && h + 4 <= e < w && w + 2 < v <= |s|
    && s[..h] == m.host && s[h] == ' ' && s[h + 1] == '('
    && s[h + 2..e - 1] == m.address && s[e - 1] == ')'
    && IsBlank(s[e..w]) && s[w] == ':' && IsSpace(s[w + 1]) && s[w + 2..v] == m.value
    && IsToken(m.host) && IsToken(m.address) && IsToken(m.value)
    && (v == |s| || IsSpace(s[v]))
  }

  /** A prefix of s extended by the next slice is the longer prefix. */
  lemma PrefixExtend(s: string, i: nat, j: nat, piece: string)
    requires i <= j <= |s| && piece == s[i..j]
    ensures s[..i] + piece == s[..j]
  {
  }

  lemma MatchedAtDecomposes(s: string, m: ProbeMatch, h: nat, e: nat, w: nat, v: nat)
    requires MatchedAt(s, m, h, e, w, v)
    ensures Decomposes(s, m, s[e..w], s[w + 1], s[v..])
  {
    assert s[..h] == m.host;
    PrefixExtend(s, h, h + 2, " (");
    PrefixExtend(s, h + 2, e - 1, m.address);
    PrefixExtend(s, e - 1, e, ")");
    PrefixExtend(s, e, w, s[e..w]);
    PrefixExtend(s, w, w + 1, ":");
    PrefixExtend(s, w + 1, w + 2, [s[w + 1]]);
    PrefixExtend(s, w + 2, v, m.value);
    assert s == s[..v] + s[v..];
  }

  /** A piece that follows a prefix of s sits at that prefix's end. */
  lemma PieceAt(s: string, p: string, q: string)
    requires p + q <= s
    ensures p <= s && s[..|p|] == p && s[|p|..|p| + |q|] == q
  {
    assert (p + q)[..|p|] == p;
    assert (p + q)[|p|..] == q;
  }

  lemma DecomposesMatchedAt(s: string, m: ProbeMatch, ws: string, c: char, rest: string)
    requires Decomposes(s, m, ws, c, rest)
    ensures var h := |m.host|;
            var e := h + 3 + |m.address|;
            var w := e + |ws|;
      MatchedAt(s, m, h, e, w, w + 2 + |m.value|)
  {
    var p1 := m.host + " (";
    var p2 := p1 + m.address;
    var p3 := p2 + ")";
    var p4 := p3 + ws;
    var p5 := p4 + ":";
    var p6 := p5 + [c];
    var p7 := p6 + m.value;
    assert s == p7 + rest;
    PieceAt(s, p7, rest);
    PieceAt(s, p6, m.value);
    PieceAt(s, p5, [c]);
    PieceAt(s, p4, ":");
    PieceAt(s, p3, ws);
    PieceAt(s, p2, ")");
    PieceAt(s, p1, m.address);
    PieceAt(s, m.host, " (");
    var h := |m.host|;
    var w := |p4|;
    assert s[h] == s[h..h + 2][0] && s[h + 1] == s[h..h + 2][1];
    assert s[|p2|] == s[|p2|..|p3|][0];
    assert s[w] == s[w..w + 1][0] && s[w + 1] == s[w + 1..w + 2][0];
    assert |p7| < |s| ==> s[|p7|] == rest[0];
  }

  lemma TokenSpan(s: string, i: nat, j: nat)
    requires i < j <= |s| && IsToken(s[i..j]) && (j == |s| || IsSpace(s[j]))
    ensures SpanEnd(s, i, false) == j
  {
    forall k | i <= k < j ensures !IsSpace(s[k]) {
      assert s[k] == s[i..j][k - i];
    }
    SpanEndIs(s, i, j, false);
  }

  lemma BlankSpan(s: string, i: nat, j: nat)
    requires i < j < |s| && IsBlank(s[i..j]) && !IsSpace(s[j])
    ensures SpanEnd(s, i, true) == j
  {
    forall k | i <= k < j ensures IsSpace(s[k]) {
      assert s[k] == s[i..j][k - i];
    }
    SpanEndIs(s, i, j, true);
  }

  /** The matcher succeeds, with these groups, at these positions. */
  lemma MatchedAtMatch(s: string, m: ProbeMatch, h: nat, e: nat, w: nat, v: nat)
    requires MatchedAt(s, m, h, e, w, v)
    ensures Match(s) == Some(m)
  {
    TokenSpan(s, 0, h);
    assert s[h + 2..e] == s[h + 2..e - 1] + [s[e - 1]];
    assert s[e] == s[e..w][0];
    TokenSpan(s, h + 2, e);
    BlankSpan(s, e, w);
    TokenSpan(s, w + 2, v);
    HostStage(s, h);
    AddressStage(s, h, e);
    BlankStage(s, h, e, w);
    ColonStage(s, h, e, w, v);
  }

  /** A slice inside one run is a token or a blank. */
  lemma RunSlice(s: string, i: nat, j: nat, space: bool)
    requires i < j <= |s|
    requires forall k :: i <= k < j ==> IsSpace(s[k]) == space
    ensures space ==> IsBlank(s[i..j])
    ensures !space ==> IsToken(s[i..j])
  {
    forall k | 0 <= k < j - i ensures IsSpace(s[i..j][k]) == space {
      assert s[i..j][k] == s[i + k];
    }
  }

  /** Each stage of the matcher succeeds only after its checks, and once
      they hold it hands over to the next stage. */
  lemma HostStage(s: string, h: nat)
    requires h <= |s|
    ensures AfterHost(s, h).Some? ==> 0 < h && h + 1 < |s| && s[h] == ' ' && s[h + 1] == '('
    ensures 0 < h && h + 1 < |s| && s[h] == ' ' && s[h + 1] == '(' ==>
      AfterHost(s, h) == AfterAddress(s, h, SpanEnd(s, h + 2, false))
  {
  }

  lemma AddressStage(s: string, h: nat, e: nat)
    requires 0 < h && h + 2 <= e <= |s|
    ensures AfterAddress(s, h, e).Some? ==> h + 4 <= e < |s| && s[e - 1] == ')'
    ensures h + 4 <= e < |s| && s[e - 1] == ')' ==>
      AfterAddress(s, h, e) == AfterBlank(s, h, e, SpanEnd(s, e, true))
  {
  }

  lemma BlankStage(s: string, h: nat, e: nat, w: nat)
    requires 0 < h && h + 4 <= e <= w <= |s|
    ensures AfterBlank(s, h, e, w).Some? ==> w + 1 < |s| && s[w] == ':' && IsSpace(s[w + 1])
    ensures w + 1 < |s| && s[w] == ':' && IsSpace(s[w + 1]) ==>
      AfterBlank(s, h, e, w) == AfterColon(s, h, e, w, SpanEnd(s, w + 2, false))
  {
  }

  lemma ColonStage(s: string, h: nat, e: nat, w: nat, v: nat)
    requires 0 < h && h + 4 <= e <= w && w + 2 <= v <= |s|
    ensures AfterColon(s, h, e, w, v).Some? <==> w + 2 < v
    ensures w + 2 < v ==> AfterColon(s, h, e, w, v) == Some(ProbeMatch(s[..h], s[h + 2..e - 1], s[w + 2..v]))
  {
  }

  /** Runs found by SpanEnd with that punctuation between them are the
      pieces of the pattern. */
  lemma SpansMatchedAt(s: string, h: nat, e: nat, w: nat, v: nat)
    requires 0 < h && h + 4 <= e < |s| && e <= w && w + 1 < |s| && w + 2 < v <= |s|
    requires h == SpanEnd(s, 0, false) && e == SpanEnd(s, h + 2, false)
    requires w == SpanEnd(s, e, true) && v == SpanEnd(s, w + 2, false)
    requires s[h] == ' ' && s[h + 1] == '(' && s[e - 1] == ')'
    requires s[w] == ':' && IsSpace(s[w + 1])
    ensures MatchedAt(s, ProbeMatch(s[..h], s[h + 2..e - 1], s[w + 2..v]), h, e, w, v)
  {
    RunSlice(s, 0, h, false);
    RunSlice(s, h + 2, e - 1, false);
    RunSlice(s, e, w, true);
    RunSlice(s, w + 2, v, false);
    assert s[..h] == s[0..h];
  }

  /** Every match the matcher reports is a match of the pattern. */
  lemma MatchSound(s: string)
    requires Match(s).Some?
    ensures exists ws, c, rest :: Decomposes(s, Match(s).value, ws, c, rest)
  {
    var h := SpanEnd(s, 0, false);
    HostStage(s, h);
    var e := SpanEnd(s, h + 2, false);
    AddressStage(s, h, e);
    var w := SpanEnd(s, e, true);
    BlankStage(s, h, e, w);
    var v := SpanEnd(s, w + 2, false);
    ColonStage(s, h, e, w, v);
    var m := ProbeMatch(s[..h], s[h + 2..e - 1], s[w + 2..v]);
    assert Match(s) == Some(m);
    SpansMatchedAt(s, h, e, w, v);
    MatchedAtDecomposes(s, m, h, e, w, v);
    assert Decomposes(s, m, s[e..w], s[w + 1], s[v..]);
  }

  /** Every match of the pattern is found by the matcher, with these groups. */
  lemma MatchComplete(s: string, m: ProbeMatch, ws: string, c: char, rest: string)
    requires Decomposes(s, m, ws, c, rest)
    ensures Match(s) == Some(m)
  {
    DecomposesMatchedAt(s, m, ws, c, rest);
    var h := |m.host|;
    var e := h + 3 + |m.address|;
    var w := e + |ws|;
    MatchedAtMatch(s, m, h, e, w, w + 2 + |m.value|);
  }

  /** So a line fails to match exactly when it has no decomposition. */
  lemma MatchNoneIff(s: string)
    ensures Match(s).None? <==> forall m, ws, c, rest :: !Decomposes(s, m, ws, c, rest)
  {
    if Match(s).Some? {
      MatchSound(s);
    } else {
      forall m, ws, c, rest ensures !Decomposes(s, m, ws, c, rest) {
        if Decomposes(s, m, ws, c, rest) {
          MatchComplete(s, m, ws, c, rest);
        }
      }
    }
  }

  /** A line as `fping -C 1 -A -d -q` writes it is read as host, address and value. */
  lemma FpingLineMatches(host: string, address: string, value: string)
    requires IsToken(host) && IsToken(address) && IsToken(value)
    ensures Match(host + " (" + address + ") : " + value) == Some(ProbeMatch(host, address, value))
  {
    var line := host + " (" + address + ") : " + value;
    assert line == host + " (" + address + ")" + " " + ":" + [' '] + value + "";
    MatchComplete(line, ProbeMatch(host, address, value), " ", ' ', "");
  }

  /** A line `A : V` without the parenthesised address does not match at
      all: the pattern needs ` (` right after the first token. */
  lemma AddressOnlyRejected(a: string, v: string)
    requires IsToken(a) && IsToken(v)
    ensures Match(a + " : " + v) == None
  {
    var s := a + " : " + v;
    forall k | 0 <= k < |a| ensures s[k] == a[k] { }
    SpanEndIs(s, 0, |a|, false);
    assert s[|a| + 1] == ':';
  }

  /** The instance `10.0.0.1 : 0.42`. */
  lemma AddressOnlyLineRejected()
    ensures Match("10.0.0.1 : 0.42") == None
  {
    assert IsToken("10.0.0.1") && IsToken("0.42");
    assert "10.0.0.1 : 0.42" == "10.0.0.1" + " : " + "0.42";
    AddressOnlyRejected("10.0.0.1", "0.42");
  }

  /** The number appended for a matched value: `-` means no reply. */
  function LineValue(v: string, parse: string -> Option<real>): Option<real> {
    if v == "-" then Some(Sentinel) else parse(v)
  }

  /** One line of the probe's error stream as the loop sees it. */
  datatype ProbeLine = Empty | Unmatched(text: string) | Matched(m: ProbeMatch)

  /** `if aline:` and the `re.match` of lines 109-110. */
  function ReadLine(line: string): (pl: ProbeLine)
    ensures pl.Empty? <==> line == ""
    ensures pl.Unmatched? ==> pl.text == line
  {
    if line == "" then Empty
    else
      match Match(line)
      case None => Unmatched(line)
      case Some(m) => Matched(m)
  }

  function ReadLines(lines: seq<string>): (pls: seq<ProbeLine>)
    ensures |pls| == |lines|
  {
    seq(|lines|, i requires 0 <= i < |lines| => ReadLine(lines[i]))
  }

  /** The loop at lines 108-119 over the remaining probe lines, starting
      from dictionary t. Both numeric branches (lines 116-119) append the
      same value; the comparison with the warning ratio only decides which
      of two identical statements runs. */
  function Attach(t: Table, pls: seq<ProbeLine>, parse: string -> Option<real>): (r: Result<Table, Error>)
    ensures r.Success? ==> r.value.keys == t.keys && r.value.vals.Keys == t.vals.Keys
    decreases |pls|
  {
    if pls == [] then Success(t)
    else
      match pls[0]
      case Empty => Attach(t, pls[1..], parse)
      case Unmatched(line) => Failure(ProbeNoMatch(line))
      case Matched(m) =>
        if m.value == "-" then
          if m.address !in t.vals then Failure(UnknownAddress(m.address))
          else Attach(t.AddRtt(m.address, Sentinel), pls[1..], parse)
        else
          match parse(m.value)
          case None => Failure(NotANumber(m.value))
          case Some(x) =>
            if m.address !in t.vals then Failure(UnknownAddress(m.address))
            else Attach(t.AddRtt(m.address, x), pls[1..], parse)
  }

  /** The probe part of `getpingresults`: error-stream text in, the
      dictionary with the results appended out. */
  method AttachResults(t: Table, results: string, parse: string -> Option<real>)
    returns (r: Result<Table, Error>)
    ensures r == Attach(t, ReadLines(SplitOn(results, '\n')), parse)
  {
    var lines := SplitOn(results, '\n');
    ghost var pls := ReadLines(lines);
    var iplist := t;
    var i := 0;
    while i < |lines|
      invariant 0 <= i <= |lines|
      invariant Attach(iplist, pls[i..], parse) == Attach(t, pls, parse)
    {
      var aline := lines[i];
      assert pls[i..][0] == pls[i] == ReadLine(aline);
      assert pls[i..][1..] == pls[i + 1..];
      if aline != "" {
        var m := Match(aline);
        if m.None? {
          return Failure(ProbeNoMatch(aline));
        }
        var ipaddress := m.value.address;
        var rtt := m.value.value;
        if rtt == "-" {
          if ipaddress !in iplist.vals {
            return Failure(UnknownAddress(ipaddress));
          }
          iplist := iplist.AddRtt(ipaddress, Sentinel);
        } else {
          var x := parse(rtt);
          if x.None? {
            return Failure(NotANumber(rtt));
          }
          if ipaddress !in iplist.vals {
            return Failure(UnknownAddress(ipaddress));
          }
          iplist := iplist.AddRtt(ipaddress, x.value);
        }
      }
      i := i + 1;
    }
    return Success(iplist);
  }

  /** The values the probe lines report for address a, in line order: an
      independent statement of what the loop appends. */
  function ValuesFor(pls: seq<ProbeLine>, a: string, parse: string -> Option<real>): seq<real>
    decreases |pls|
  {
    if pls == [] then []
    else
      var rest := ValuesFor(pls[1..], a, parse);
      if pls[0].Matched? && pls[0].m.address == a && LineValue(pls[0].m.value, parse).Some?
      then [LineValue(pls[0].m.value, parse).value] + rest
      else rest
  }

  /** A probe line that makes the loop raise: a non-empty line that does
      not match, a value `float()` refuses, or an address not in the roster. */
  predicate Rejected(addresses: set<string>, pl: ProbeLine, parse: string -> Option<real>) {
    || pl.Unmatched?
    || (pl.Matched? && (LineValue(pl.m.value, parse).None? || pl.m.address !in addresses))
  }

  /** What an accepted line does to the dictionary. */
  function Apply(t: Table, pl: ProbeLine, parse: string -> Option<real>): (t2: Table)
    requires !Rejected(t.vals.Keys, pl, parse)
    ensures t2.keys == t.keys && t2.vals.Keys == t.vals.Keys
  {
    if pl.Empty? then t else t.AddRtt(pl.m.address, LineValue(pl.m.value, parse).value)
  }

  /** The first line either ends the stage with an error or is applied and
      the stage goes on with the rest. */
  lemma AttachFirst(t: Table, pls: seq<ProbeLine>, parse: string -> Option<real>)
    requires pls != []
    ensures Rejected(t.vals.Keys, pls[0], parse) ==> Attach(t, pls, parse).Failure?
    ensures !Rejected(t.vals.Keys, pls[0], parse) ==>
      Attach(t, pls, parse) == Attach(Apply(t, pls[0], parse), pls[1..], parse)
  {
  }

  /** The values one line reports for address a: none or one. */
  function Reported(pl: ProbeLine, a: string, parse: string -> Option<real>): seq<real> {
    if pl.Matched? && pl.m.address == a && LineValue(pl.m.value, parse).Some?
    then [LineValue(pl.m.value, parse).value] else []
  }

  lemma ValuesForFirst(pls: seq<ProbeLine>, a: string, parse: string -> Option<real>)
    requires pls != []
    ensures ValuesFor(pls, a, parse) == Reported(pls[0], a, parse) + ValuesFor(pls[1..], a, parse)
  {
  }

  lemma ApplyEntry(t: Table, pl: ProbeLine, parse: string -> Option<real>, a: string)
    requires !Rejected(t.vals.Keys, pl, parse) && a in t.vals
    ensures Apply(t, pl, parse).vals[a] == t.vals[a].(rtts := t.vals[a].rtts + Reported(pl, a, parse))
  {
  }

  /** Appending in two steps is appending the concatenation. */
  lemma EntryExtend(e: Entry, e2: Entry, r: seq<real>, later: seq<real>, whole: seq<real>)
    requires e2 == e.(rtts := e.rtts + r) && whole == r + later
    ensures e2.(rtts := e2.rtts + later) == e.(rtts := e.rtts + whole)
  {
    assert e.rtts + r + later == e.rtts + whole;
  }

  /** A line appends to one address only, exactly what ValuesFor counts. */
  lemma ApplyValues(t: Table, pls: seq<ProbeLine>, parse: string -> Option<real>, a: string)
    requires pls != [] && !Rejected(t.vals.Keys, pls[0], parse) && a in t.vals
    ensures var e2 := Apply(t, pls[0], parse).vals[a];
      e2.(rtts := e2.rtts + ValuesFor(pls[1..], a, parse))
        == t.vals[a].(rtts := t.vals[a].rtts + ValuesFor(pls, a, parse))
  {
    ValuesForFirst(pls, a, parse);
    ApplyEntry(t, pls[0], parse, a);
    EntryExtend(t.vals[a], Apply(t, pls[0], parse).vals[a], Reported(pls[0], a, parse),
                ValuesFor(pls[1..], a, parse), ValuesFor(pls, a, parse));
  }

  /** The stage fails exactly when some line is rejected. */
  lemma {:induction false} AttachFailsIff(t: Table, pls: seq<ProbeLine>, parse: string -> Option<real>)
    ensures Attach(t, pls, parse).Failure? <==>
      exists i :: 0 <= i < |pls| && Rejected(t.vals.Keys, pls[i], parse)
    decreases |pls|
  {
    if pls != [] {
      var pl := pls[0];
      AttachFirst(t, pls, parse);
      assert forall i :: 1 <= i < |pls| ==> pls[i] == pls[1..][i - 1];
      if !Rejected(t.vals.Keys, pl, parse) {
        var t' := Apply(t, pl, parse);
        AttachFailsIff(t', pls[1..], parse);
        if Attach(t, pls, parse).Failure? {
          var i :| 0 <= i < |pls[1..]| && Rejected(t'.vals.Keys, pls[1..][i], parse);
          assert Rejected(t.vals.Keys, pls[i + 1], parse);
        }
      }
    }
  }

  /** On success the roster is unchanged except that each address's entry
      has gained exactly the values its probe lines report, in order. */
  lemma {:induction false} AttachAppends(t: Table, pls: seq<ProbeLine>, parse: string -> Option<real>)
    requires Attach(t, pls, parse).Success?
    ensures var t2 := Attach(t, pls, parse).value;
      && t2.keys == t.keys && t2.vals.Keys == t.vals.Keys
      && forall a :: a in t.vals ==>
           t2.vals[a] == t.vals[a].(rtts := t.vals[a].rtts + ValuesFor(pls, a, parse))
    decreases |pls|
  {
    if pls != [] {
      AttachFirst(t, pls, parse);
      var t' := Apply(t, pls[0], parse);
      AttachAppends(t', pls[1..], parse);
      forall a | a in t.vals {
        ApplyValues(t, pls, parse, a);
      }
    }
  }

  /** One line `H (A)<ws>: V` appends exactly one value to A's entry: 9999
      for `-`, the parsed number otherwise; an empty line changes nothing. */
  lemma ProbeLineAttaches(t: Table, h: string, a: string, ws: string, c: char,
                          v: string, rest: string, parse: string -> Option<real>)
    requires a in t.vals
    requires Decomposes(h + " (" + a + ")" + ws + ":" + [c] + v + rest, ProbeMatch(h, a, v), ws, c, rest)
    requires v == "-" || parse(v).Some?
    ensures var line := h + " (" + a + ")" + ws + ":" + [c] + v + rest;
      Attach(t, ReadLines([line]), parse)
        == Success(t.AddRtt(a, if v == "-" then Sentinel else parse(v).value))
    ensures Attach(t, ReadLines([""]), parse) == Success(t)
  {
    var line := h + " (" + a + ")" + ws + ":" + [c] + v + rest;
    MatchComplete(line, ProbeMatch(h, a, v), ws, c, rest);
    assert ReadLines([line]) == [Matched(ProbeMatch(h, a, v))];
    assert ReadLines([""]) == [Empty];
  }

  /** A `-` reply and a genuine reading that parses to 9999 leave the same
      dictionary behind: the sentinel cannot be told apart from a reading. */
  lemma SentinelIndistinguishable(t: Table, h: string, a: string, ws: string, c: char,
                                  v: string, parse: string -> Option<real>)
    requires a in t.vals
    requires IsToken(h) && IsToken(a) && IsBlank(ws) && IsSpace(c)
    requires IsToken(v) && v != "-" && parse(v) == Some(Sentinel)
    ensures var dash := h + " (" + a + ")" + ws + ":" + [c] + "-";
            var reading := h + " (" + a + ")" + ws + ":" + [c] + v;
      Attach(t, ReadLines([dash]), parse) == Attach(t, ReadLines([reading]), parse)
        == Success(t.AddRtt(a, Sentinel))
  {
    var dash := h + " (" + a + ")" + ws + ":" + [c] + "-";
    var reading := h + " (" + a + ")" + ws + ":" + [c] + v;
    assert dash == dash + [];
    assert reading == reading + [];
    ProbeLineAttaches(t, h, a, ws, c, "-", [], parse);
    ProbeLineAttaches(t, h, a, ws, c, v, [], parse);
  }
}
