/**
 * The roster loader, `load_devicefile` (MassPing.py:93-100): every line of
 * the device list is stripped and split, must yield exactly the four fields
 * address, hostname, location and function, and is stored under its
 * address; a later line with the same address replaces the earlier entry.
 */
module Roster {
  import opened Wrappers
  import opened PyText
  import opened Devices

  /** The fields of one roster line: `line.split()`, which is what the
      right-hand side `line.strip().split()` of the unpack at line 98 gives
      (PyText.FieldsOfStrip: stripping first splits the same way). */
  function LineFields(line: string): seq<string> {
    Fields(line)
  }

  /** The split of every roster line, in file order. */
  function Rows(lines: seq<string>): (rows: seq<seq<string>>)
    ensures |rows| == |lines|
    decreases |lines|
  {
    if lines == [] then [] else Rows(lines[..|lines| - 1]) + [LineFields(lines[|lines| - 1])]
  }

  /** A split line that the four-way unpack accepts. */
  predicate Unpacks(row: seq<string>) {
    |row| == 4
  }

  /** The list `[hostname, location, function]` stored under `row[0]`. */
  function Device(row: seq<string>): Entry
    requires Unpacks(row)
  {
    Entry(row[1], row[2], row[3], [])
  }

  /** One iteration of the loop at lines 96-99, for the line at index i. */
  function LoadRow(t: Table, i: nat, row: seq<string>): (r: Result<Table, Error>)
    requires t.Valid()
    ensures r.Success? ==> r.value.Valid()
  {
    if Unpacks(row) then Success(t.Put(row[0], Device(row)))
    else Failure(RosterUnpack(i, |row|))
  }

  /** The dictionary built from the split lines, or the error of the first
      line that does not unpack. */
  function LoadRows(rows: seq<seq<string>>): (r: Result<Table, Error>)
    ensures r.Success? ==> r.value.Valid()
    decreases |rows|
  {
    if rows == [] then Success(EmptyTable)
    else
      match LoadRows(rows[..|rows| - 1])
      case Failure(e) => Failure(e)
      case Success(t) => LoadRow(t, |rows| - 1, rows[|rows| - 1])
  }

  function Load(lines: seq<string>): Result<Table, Error> {
    LoadRows(Rows(lines))
  }

  /** `line.strip().split()` on one line of the device list. */
  method SplitLine(line: string) returns (fs: seq<string>)
    ensures fs == LineFields(line)
    ensures forall k :: 0 <= k < |fs| ==> IsToken(fs[k])
  {
    var stripped := Strip(line);
    fs := Fields(stripped);
    FieldsOfStrip(line);
    FieldsAreTokens(line);
  }

  /** `load_devicefile` over the lines of the device list. */
  method LoadDeviceFile(lines: seq<string>) returns (r: Result<Table, Error>)
    ensures r == Load(lines)
  {
    ghost var rows := Rows(lines);
    var iplist := EmptyTable;
    var i := 0;
    while i < |lines|
      invariant 0 <= i <= |lines|
      invariant LoadRows(rows[..i]) == Success(iplist)
    {
      var fs := SplitLine(lines[i]);
      RowsAt(lines, i);
      LoadNext(rows, i, iplist);
      if |fs| != 4 {
        LoadPrefixFailure(rows, i + 1);
        return Failure(RosterUnpack(i, |fs|));
      }
      iplist := iplist.Put(fs[0], Entry(fs[1], fs[2], fs[3], []));
      i := i + 1;
    }
    assert rows[..i] == rows;
    return Success(iplist);
  }

  /** Line i of the roster splits into row i. */
  lemma {:induction false} RowsAt(lines: seq<string>, i: nat)
    requires i < |lines|
    ensures Rows(lines)[i] == LineFields(lines[i])
    decreases |lines|
  {
    var n := |lines|;
    if i < n - 1 {
      RowsAt(lines[..n - 1], i);
      assert lines[..n - 1][i] == lines[i];
    }
  }

  /** The rows of a prefix of the lines are that prefix of the rows. */
  lemma {:induction false} RowsPrefix(lines: seq<string>, k: nat)
    requires k <= |lines|
    ensures Rows(lines[..k]) == Rows(lines)[..k]
    decreases |lines|
  {
    var n := |lines|;
    if k == n {
      assert lines[..k] == lines;
    } else {
      RowsPrefix(lines[..n - 1], k);
      assert lines[..n - 1][..k] == lines[..k];
    }
  }

  /** Loading one more line either stores its device in the dictionary
      built so far or fails with that line's unpack error. */
  lemma LoadNext(rows: seq<seq<string>>, i: nat, t: Table)
    requires i < |rows| && LoadRows(rows[..i]) == Success(t)
    ensures t.Valid()
    ensures Unpacks(rows[i]) ==> LoadRows(rows[..i + 1]) == Success(t.Put(rows[i][0], Device(rows[i])))
    ensures !Unpacks(rows[i]) ==> LoadRows(rows[..i + 1]) == Failure(RosterUnpack(i, |rows[i]|))
  {
    assert rows[..i + 1][..i] == rows[..i];
  }

  /** A successful load of a non-empty roster is the load of all lines but
      the last, followed by storing the last line. */
  lemma LoadLast(rows: seq<seq<string>>)
    requires rows != [] && LoadRows(rows).Success?
    ensures LoadRows(rows[..|rows| - 1]).Success? && Unpacks(rows[|rows| - 1])
    ensures LoadRows(rows).value
         == LoadRows(rows[..|rows| - 1]).value.Put(rows[|rows| - 1][0], Device(rows[|rows| - 1]))
  {
  }

  /** Once a prefix of the roster fails, the whole load fails the same way. */
  lemma {:induction false} LoadPrefixFailure(rows: seq<seq<string>>, k: nat)
    requires k <= |rows|
    requires LoadRows(rows[..k]).Failure?
    ensures LoadRows(rows) == LoadRows(rows[..k])
    decreases |rows|
  {
    if k == |rows| {
      assert rows[..k] == rows;
    } else {
      var p := rows[..|rows| - 1];
      assert p[..k] == rows[..k];
      LoadPrefixFailure(p, k);
    }
  }

  /** The load fails exactly when some line does not split into four
      fields, and then it reports the first such line and its field count. */
  lemma {:induction false} LoadFailsIff(rows: seq<seq<string>>)
    ensures LoadRows(rows).Failure? <==> exists i :: 0 <= i < |rows| && !Unpacks(rows[i])
    ensures LoadRows(rows).Failure? ==>
      exists i :: && 0 <= i < |rows| && !Unpacks(rows[i])
                  && (forall j :: 0 <= j < i ==> Unpacks(rows[j]))
                  && LoadRows(rows).error == RosterUnpack(i, |rows[i]|)
    decreases |rows|
  {
    if rows != [] {
      var n := |rows|;
      var p := rows[..n - 1];
      LoadFailsIff(p);
      assert forall i :: 0 <= i < n - 1 ==> p[i] == rows[i];
      if LoadRows(p).Failure? {
        var i :| && 0 <= i < |p| && !Unpacks(p[i])
                 && (forall j :: 0 <= j < i ==> Unpacks(p[j]))
                 && LoadRows(p).error == RosterUnpack(i, |p[i]|);
        assert !Unpacks(rows[i]);
      } else if !Unpacks(rows[n - 1]) {
        assert forall j :: 0 <= j < n - 1 ==> Unpacks(rows[j]);
      } else {
        forall i | 0 <= i < n ensures Unpacks(rows[i]) {
          if i < n - 1 { assert p[i] == rows[i]; }
        }
      }
    }
  }

  /** A non-empty sequence is its front followed by its last element. */
  lemma SplitLast<T>(s: seq<T>)
    requires s != []
    ensures s == s[..|s| - 1] + [s[|s| - 1]]
  {
  }

  /** The addresses that some line of rows carries. */
  ghost predicate Carried(rows: seq<seq<string>>, a: string) {
    exists i :: 0 <= i < |rows| && Unpacks(rows[i]) && rows[i][0] == a
  }

  /** Storing one more line adds its address and nothing else. */
  lemma CarriedStep(p: seq<seq<string>>, row: seq<string>, t0: Table, t: Table)
    requires t0.Valid() && Unpacks(row) && t == t0.Put(row[0], Device(row))
    requires forall a :: a in t0.vals <==> Carried(p, a)
    requires |t0.keys| <= |p|
    ensures forall a :: a in t.vals <==> Carried(p + [row], a)
    ensures |t.keys| <= |p| + 1
  {
    var rows := p + [row];
    forall a ensures a in t.vals <==> Carried(rows, a) {
      if a in t.vals {
        if a == row[0] {
          assert rows[|p|] == row;
        } else {
          var i :| 0 <= i < |p| && Unpacks(p[i]) && p[i][0] == a;
          assert rows[i] == p[i];
        }
      }
      if Carried(rows, a) {
        var i :| 0 <= i < |rows| && Unpacks(rows[i]) && rows[i][0] == a;
        if i < |p| {
          assert p[i] == rows[i];
          assert Carried(p, a);
        }
      }
    }
  }

  /** The loaded dictionary has one key per distinct address in the lines,
      and never more keys than lines. */
  lemma {:induction false} LoadKeys(rows: seq<seq<string>>)
    requires LoadRows(rows).Success?
    ensures forall a :: a in LoadRows(rows).value.vals <==> Carried(rows, a)
    ensures |LoadRows(rows).value.keys| <= |rows|
    decreases |rows|
  {
    if rows != [] {
      var n := |rows|;
      var p := rows[..n - 1];
      LoadKeys(p);
      LoadLast(rows);
      SplitLast(rows);
      CarriedStep(p, rows[n - 1], LoadRows(p).value, LoadRows(rows).value);
    }
  }

  /** A freshly loaded entry carries no RTT yet. */
  lemma {:induction false} LoadNoRtts(rows: seq<seq<string>>)
    requires LoadRows(rows).Success?
    ensures forall a :: a in LoadRows(rows).value.vals ==> LoadRows(rows).value.vals[a].rtts == []
    decreases |rows|
  {
    if rows != [] {
      LoadLast(rows);
      LoadNoRtts(rows[..|rows| - 1]);
    }
  }

  /** For a repeated address the metadata comes from the last line that
      carries it; a freshly loaded entry has no RTT yet. */
  lemma {:induction false} LoadLastWins(rows: seq<seq<string>>, i: nat)
    requires LoadRows(rows).Success?
    requires i < |rows| && Unpacks(rows[i])
    requires forall j :: i < j < |rows| && Unpacks(rows[j]) ==> rows[j][0] != rows[i][0]
    ensures rows[i][0] in LoadRows(rows).value.vals
    ensures LoadRows(rows).value.vals[rows[i][0]] == Device(rows[i])
    decreases |rows|
  {
    var n := |rows|;
    var p := rows[..n - 1];
    assert LoadRows(p).Success?;
    var t0 := LoadRows(p).value;
    assert LoadRows(rows) == LoadRow(t0, n - 1, rows[n - 1]);
    if i < n - 1 {
      assert p[i] == rows[i];
      forall j | i < j < |p| && Unpacks(p[j]) ensures p[j][0] != p[i][0] {
        assert p[j] == rows[j];
      }
      LoadLastWins(p, i);
      assert rows[n - 1][0] != rows[i][0];
    }
  }

  /** The index of the first line whose address is a, or |rows|. */
  function FirstLine(rows: seq<seq<string>>, a: string): (k: nat)
    ensures k <= |rows|
    ensures forall j :: 0 <= j < k && Unpacks(rows[j]) ==> rows[j][0] != a
    ensures k < |rows| ==> Unpacks(rows[k]) && rows[k][0] == a
    decreases |rows|
  {
    if rows == [] then 0
    else if Unpacks(rows[0]) && rows[0][0] == a then 0
    else 1 + FirstLine(rows[1..], a)
  }

  lemma FirstLineOfExtension(p: seq<seq<string>>, rows: seq<seq<string>>, a: string)
    requires p <= rows
    requires FirstLine(p, a) < |p|
    ensures FirstLine(rows, a) == FirstLine(p, a)
  {
    var k := FirstLine(p, a);
    assert rows[k] == p[k];
    var k' := FirstLine(rows, a);
    assert k' <= k;
    assert k' < |p| && rows[k'] == p[k'];
  }

  /** A line carrying a that follows only lines not carrying it is a's first line. */
  lemma FirstLineAt(rows: seq<seq<string>>, a: string, k: nat)
    requires k < |rows| && Unpacks(rows[k]) && rows[k][0] == a
    requires forall j :: 0 <= j < k && Unpacks(rows[j]) ==> rows[j][0] != a
    ensures FirstLine(rows, a) == k
  {
  }

  /** The keys are listed in the order of their first line in rows. */
  ghost predicate FirstAppearanceOrder(rows: seq<seq<string>>, keys: seq<string>) {
    forall k, l :: 0 <= k < l < |keys| ==> FirstLine(rows, keys[k]) < FirstLine(rows, keys[l])
  }

  /** Appending a line moves no earlier first appearance; a key new with
      that line appears last. */
  lemma {:induction false} OrderExtends(p: seq<seq<string>>, row: seq<string>, keys: seq<string>, a: string)
    requires FirstAppearanceOrder(p, keys)
    requires forall k :: 0 <= k < |keys| ==> FirstLine(p, keys[k]) < |p|
    ensures FirstAppearanceOrder(p + [row], keys)
    ensures Unpacks(row) && row[0] == a && a !in keys && FirstLine(p, a) == |p| ==>
      FirstAppearanceOrder(p + [row], keys + [a])
  {
    var rows := p + [row];
    forall k | 0 <= k < |keys| ensures FirstLine(rows, keys[k]) == FirstLine(p, keys[k]) {
      FirstLineOfExtension(p, rows, keys[k]);
    }
    if Unpacks(row) && row[0] == a && a !in keys && FirstLine(p, a) == |p| {
      forall j | 0 <= j < |p| && Unpacks(rows[j]) ensures rows[j][0] != a {
        assert rows[j] == p[j];
      }
      FirstLineAt(rows, a, |p|);
      var ks := keys + [a];
      forall k, l | 0 <= k < l < |ks| ensures FirstLine(rows, ks[k]) < FirstLine(rows, ks[l]) {
        if l < |keys| {
          assert ks[k] == keys[k] && ks[l] == keys[l];
        }
      }
    }
  }

  /** Every loaded key has its first line inside the roster, and an address
      that is not loaded has none. */
  lemma KeysFirstLine(rows: seq<seq<string>>)
    requires LoadRows(rows).Success?
    ensures var t := LoadRows(rows).value;
      forall k :: 0 <= k < |t.keys| ==> FirstLine(rows, t.keys[k]) < |rows|
    ensures forall a :: a !in LoadRows(rows).value.vals ==> FirstLine(rows, a) == |rows|
  {
    var t := LoadRows(rows).value;
    LoadKeys(rows);
    forall k | 0 <= k < |t.keys| ensures FirstLine(rows, t.keys[k]) < |rows| {
      assert t.keys[k] in t.vals;
      var i :| 0 <= i < |rows| && Unpacks(rows[i]) && rows[i][0] == t.keys[k];
    }
  }

  /** The dictionary's order is the order in which addresses first appear
      in the roster (the order `dict.items()` later hands to the sort). */
  lemma {:induction false} LoadOrder(rows: seq<seq<string>>)
    requires LoadRows(rows).Success?
    ensures FirstAppearanceOrder(rows, LoadRows(rows).value.keys)
    decreases |rows|
  {
    if rows != [] {
      var n := |rows|;
      var p := rows[..n - 1];
      SplitLast(rows);
      LoadLast(rows);
      LoadOrder(p);
      KeysFirstLine(p);
      PutOrder(p, rows[n - 1], LoadRows(p).value);
    }
  }

  /** Putting the next line's device keeps the first-appearance order. */
  lemma PutOrder(p: seq<seq<string>>, row: seq<string>, t0: Table)
    requires t0.Valid() && Unpacks(row)
    requires FirstAppearanceOrder(p, t0.keys)
    requires forall k :: 0 <= k < |t0.keys| ==> FirstLine(p, t0.keys[k]) < |p|
    requires row[0] !in t0.vals ==> FirstLine(p, row[0]) == |p|
    ensures FirstAppearanceOrder(p + [row], t0.Put(row[0], Device(row)).keys)
  {
    OrderExtends(p, row, t0.keys, row[0]);
    if row[0] !in t0.vals {
      assert row[0] !in t0.keys;
    }
  }


  /** A device written out as a roster line (four tokens separated by single
      spaces, ending in a newline) splits back into exactly those fields. */
  lemma RosterLineRoundTrip(a: string, h: string, l: string, f: string)
    requires IsToken(a) && IsToken(h) && IsToken(l) && IsToken(f)
    ensures Fields(Strip(Join(" ", [a, h, l, f]) + "\n")) == [a, h, l, f]
  {
    FieldsOfStrippedLine(Join(" ", [a, h, l, f]));
    FieldsOfJoin([a, h, l, f]);
  }
}
