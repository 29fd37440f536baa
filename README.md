# MassPing measurement cycle in Dafny

MassPing.py is a small availability monitor. It reads a roster of devices
(`address hostname location function`, one per line), probes them all with
`fping`, and joins the probe's per-address round-trip times (RTTs) to the
roster. The joined devices are sorted by RTT, slowest first. Each device is
classified as down (the placeholder RTT 9999), warning (above 0.5 ms) or up.
Each cycle produces two outputs:

- an HTML dashboard: 20 cells in the first table row and 19 in each later row, because the device at each row-break position is dropped;
- a batch of InfluxDB line-protocol records.

This project models one cycle of that pipeline, with its file, process and
HTTP edges turned into parameters:

| module | file | models |
|---|---|---|
| `PyText` | pytext.dfy | `str.strip()`, `str.split()`, `str.split("\n")` and `'sep'.join`, with Python's `str.isspace` set of whitespace characters |
| `Devices` | devices.dfy | the `iplist` dictionary (insertion-ordered, as Python dicts are), its entries, the two constants and the exceptions that end a cycle |
| `Roster` | roster.dfy | `load_devicefile` |
| `Probe` | probe.dfy | the probe-result loop of `getpingresults`, including a matcher for the regular expression `(\S+) \((\S+)\)\s+\:\s(\S+)` |
| `Rank` | rank.dfy | `sorted(iplist.items(), key=lambda k: k[1][3], reverse=True)` |
| `Tiers` | tiers.dfy | the down/warning/up choice |
| `Encode` | encode.dfy | the loop of `createtabledata`: line-protocol records and the dashboard's cell/row-break sequence |
| `MassPing` | massping.dfy | `getpingresults` and `createtabledata` end to end |

How the Python is represented:

- An exception is a `Failure` carrying an `Error`:
  - `RosterUnpack` is the ValueError of the four-way unpack.
  - `ProbeNoMatch` is the AttributeError on `m.group` when the match is None.
  - `NotANumber` is the ValueError from `float()`.
  - `UnknownAddress` is the KeyError.
  - `MissingResult` is the IndexError of the sort key.
- A roster entry `[hostname, location, function]` followed by the appended floats is `Entry(hostname, location, role, rtts)`. Python's element 3 is `rtts[0]`.
- `float()` is a parameter `parse: string -> Option<real>`, and `str(float)` is a parameter `fmt: real -> string`.
- RTTs are `real`.

The loops of the three Python functions are Dafny methods with `while` loops:

| method | loop it models | function that specifies it |
|---|---|---|
| `Roster.LoadDeviceFile` | roster loop | `Roster.Load` |
| `Probe.AttachResults` | probe-result loop | `Probe.Attach` |
| `Encode.CreateTableRows` | layout loop | `Encode.LaidOut` and `Encode.Payload` |

Each method's postcondition ties its result to the function named beside it. The lemmas are proved about those functions.

Where the behaviour described for the system and the code differ, the model follows the code:

- A blank roster line splits into zero fields and fails the load. It is not skipped.
- A non-empty probe line that does not fit the pattern fails the run. It is not ignored.
- An address-only line such as `10.0.0.1 : 0.42` does not match; see `Probe.AddressOnlyRejected`.
- A device without a result makes the sort raise. It is not shown as down.
- A device that did not answer carries the number 9999, which nothing distinguishes from a genuine reading of 9999. There is no tagged "unreachable" value.
- The warning threshold is the fixed constant 0.5 (MassPing.py:25).

## Model

| member | source | states |
|---|---|---|
| PyText.FieldsAreTokens | MassPing.py:98 | `str.split()` yields only non-empty runs of non-whitespace characters |
| PyText.FieldsOfStrip | MassPing.py:97-98 | stripping a line first does not change how it splits |
| PyText.FieldsOfJoin | MassPing.py:98 | tokens joined by single spaces split back into exactly those tokens |
| PyText.SplitOn | MassPing.py:108 | `split("\n")` gives at least one piece, and no piece contains a newline |
| PyText.JoinOfSplit | MassPing.py:108 | re-joining the pieces of a split with the separator gives back the text |
| PyText.SplitOfJoin | MassPing.py:152 | splitting a newline-join of newline-free parts gives back the parts, empty ones included |
| Devices.Table.Put | MassPing.py:99 | `d[a] = e`: the map gets the value, a new key goes last, an existing key keeps its place, the dictionary stays well formed |
| Devices.Table.AddRtt | MassPing.py:115-119 | `d[a] += (x,)` appends x to a's list and leaves the other entries and the key order alone |
| Roster.SplitLine | MassPing.py:97-98 | `line.strip().split()` gives the fields of the line, every one a whitespace-free token |
| Roster.LoadRows | MassPing.py:93-100 | a successful load is a well-formed dictionary: no key twice, and the key order lists exactly the stored addresses |
| Roster.LoadDeviceFile | MassPing.py:93-100 | the loop over the lines computes `Load` (success or the same error) |
| Roster.LoadNext | MassPing.py:96-99 | one iteration: a four-field line stores `[hostname, location, function]` under its address, any other line makes the load fail with that line's index and field count |
| Roster.RowsAt | MassPing.py:96-98 | row i of the split roster is the split of line i |
| Roster.RowsPrefix | MassPing.py:96-98 | the lines read so far split into the corresponding prefix of the rows |
| Roster.LoadPrefixFailure | MassPing.py:96-98 | once a line fails to unpack, no later line changes the outcome |
| Roster.LoadFailsIff | MassPing.py:96-99 | the load fails iff some line does not split into exactly four fields, and the error names the first such line and its field count |
| Roster.LoadKeys | MassPing.py:94-100 | an address is a key iff it is the first field of some four-field roster line, and there are never more keys than lines |
| Roster.LoadNoRtts | MassPing.py:99 | every freshly loaded entry carries no RTT yet |
| Roster.LoadLastWins | MassPing.py:99 | a repeated address gets the metadata of the last line that carries it, with no RTT |
| Roster.FirstLine | MassPing.py:96-99 | index of the first line carrying an address: no earlier line carries it |
| Roster.KeysFirstLine | MassPing.py:94-100 | every key's first line lies inside the roster, and an address that is not a key has no line |
| Roster.LoadOrder | MassPing.py:94-100 | dictionary order is the order of first appearance in the roster |
| Roster.RosterLineRoundTrip | MassPing.py:97-98 | a line written as four space-separated tokens and a newline loads back as those four fields |
| Probe.SpanEnd | MassPing.py:110 | a maximal run of whitespace or non-whitespace characters starting at an index |
| Probe.MatchSound | MassPing.py:110 | every match the matcher reports is a decomposition `H (A)<ws>+:<c>V` followed by end or whitespace |
| Probe.MatchComplete | MassPing.py:110 | every such decomposition is found by the matcher with exactly these groups |
| Probe.MatchNoneIff | MassPing.py:110-111 | the matcher fails iff the line has no decomposition |
| Probe.FpingLineMatches | MassPing.py:110-113 | a line `H (A) : V` of whitespace-free H, A and V, as the probe prints it, gives the groups H, A and V |
| Probe.AddressOnlyRejected | MassPing.py:110-111 | a line `A : V` of whitespace-free tokens, without the parenthesised address, never matches |
| Probe.ReadLine | MassPing.py:109-110 | a line is skipped iff it is empty; a non-matching line keeps its text for the error |
| Probe.Attach | MassPing.py:108-119 | attaching never adds or reorders keys |
| Probe.Apply | MassPing.py:109-119 | the effect of one accepted line never adds or reorders keys |
| Probe.AttachFirst | MassPing.py:108-119 | a rejected first line ends the stage with an error; otherwise the stage is the rest applied after it |
| Probe.ApplyValues | MassPing.py:114-119 | one accepted line changes one address's list by exactly the values it reports and leaves the metadata alone |
| Probe.AttachResults | MassPing.py:107-119 | the loop over the error stream computes `Attach` of its split lines |
| Probe.ProbeLineAttaches | MassPing.py:109-119 | one matching line for a roster address appends exactly 9999 for `-` and the parsed number otherwise; an empty line changes nothing |
| Probe.AttachFailsIff | MassPing.py:110-119 | the stage fails iff some line does not match, has a value `float()` refuses, or names an address not in the roster |
| Probe.AttachAppends | MassPing.py:108-119 | on success each entry has gained exactly the values its probe lines report, in line order, and nothing else changed |
| Probe.SentinelIndistinguishable | MassPing.py:114-117 | a `-` reply and a real reading of 9999 leave the same dictionary |
| Rank.Items | MassPing.py:121 | `items()` lists every key once, in dictionary order, with its entry |
| Rank.Insert | MassPing.py:121 | inserting keeps the elements (multiset) |
| Rank.SortDesc | MassPing.py:121 | the sorted list is a permutation of its input |
| Rank.FirstMissing | MassPing.py:121 | index of the first item without an element at index 3 |
| Rank.SortSorted | MassPing.py:121 | the sorted list is ordered by RTT, largest first |
| Rank.InsertStable | MassPing.py:121 | insertion puts an item ahead of the equal-keyed items that follow it in the input |
| Rank.SortStable | MassPing.py:121 | items with equal RTT keep their input order |
| Rank.SortByRttSpec | MassPing.py:121 | the sort raises iff some entry has no result and names the first; otherwise it returns a stable, non-increasing permutation |
| Rank.DownFirst | MassPing.py:121 | when no reading exceeds 9999, down devices precede all others |
| Tiers.ClassifyIff | MassPing.py:136-142 | exactly 9999 is down, above 0.5 (and not 9999) is a warning, the rest is up |
| Tiers.ClassifyMonotone | MassPing.py:136-142 | below 9999 a slower reading never gets a healthier tier |
| Encode.Records | MassPing.py:132-143 | one record per entry, in entry order |
| Encode.RecordRoundTrip | MassPing.py:135 | a record decodes to the entry's address, location, function and RTT text; the hostname is not part of it |
| Encode.PayloadRoundTrip | MassPing.py:135-152 | the newline-joined payload decodes to exactly one reading per entry, in order, down devices included |
| Encode.CounterStep | MassPing.py:145-150 | the counter before entry i is 0 or (i-1)%20+1, and it equals 20 exactly at a row-break position |
| Encode.LayoutStep | MassPing.py:143-150 | each iteration extends the cells and the records by exactly the entry's row break or cell and its record |
| Encode.CreateTableRows | MassPing.py:128-152 | the loop emits a row break at every i>0 with i%20==0 and the entry's tiered cell elsewhere, and its payload is `Payload` of the entries |
| Encode.BreakPatternCount | MassPing.py:145-150 | a sequence with breaks exactly at those positions has n-(n-1)/20 cells |
| Encode.LaidOutCellCount | MassPing.py:130-150 | n entries give n-(n-1)/20 cells: 20 in the first row, 19 in each later one |
| Encode.RowBreakHidesDevice | MassPing.py:145-148 | the device at a row-break position appears in no cell |
| MassPing.GetPingResults | MassPing.py:102-122 | computes `PingResults`: load, attach, sort, and the first error on the way |
| MassPing.CreateTableData | MassPing.py:124-157 | fails iff `getpingresults` fails, with the same error; otherwise lays out and encodes the sorted entries |
| MassPing.JoinedItems | MassPing.py:103-121 | after a clean load and join, `items()` lists each roster address in order with its metadata and exactly its reported values |
| MassPing.AttachedItems | MassPing.py:102-121 | the same for the roster file and the probe's text |
| MassPing.PingResultsSpec | MassPing.py:102-121 | a successful cycle returns a stable, RTT-descending permutation of the roster entries, each carrying its roster metadata and exactly its reported values |
| MassPing.ItemsSortFails | MassPing.py:121 | listing the roster's addresses in order, each with exactly its reported values, the sort raises iff some address got no value, and the error names such an address |
| MassPing.JoinedSortFails | MassPing.py:115-121 | the same stated on the dictionary and the probe lines |
| MassPing.MissingResultFails | MassPing.py:115-121 | after a clean load and join, the cycle fails iff some roster address got no value, and the error names such an address |

## Left out

- `get_fping_output`, the `shlex`/`Popen` call and the command line (MassPing.py:85-90, 103-105): process I/O. The probe's error-stream text is an input string.
- The exit code and standard output of the probe: never used by the code.
- Reading `devicelist.txt` (MassPing.py:95): file I/O. The roster is a sequence of lines. Each line keeps its newline, as Python's file iterator yields it.
- Writing the dashboard file (MassPing.py:154-156): file I/O.
- `write2influx` and its HTTP POST (MassPing.py:159-167): network I/O. The payload string is the output.
- `dowork`, `schedule` and the `while 1` loop (MassPing.py:170-181): timing.
- The timestamps (MassPing.py:125-126): clock.
- IEEE floating point: RTTs are `real`, and `float()` and `str(float)` are the abstract parameters `parse` and `fmt`. NaN, infinities and rounding are not modelled.
- The static HTML/CSS text and the exact `<td>` templates and link (MassPing.py:32-82, 131, 136-142, 146, 149, 155): constants. Only the sequence of tiered cells and row breaks is modelled, not the text `'\n'.join` builds from them.
- The hostname suffix strip (MassPing.py:111): its result is never used. The matched host group is kept but not used either.
- The copy `dict(load_devicefile())` (MassPing.py:103): a copy of a fresh dictionary makes no difference here.
- Probe.Attach: the two numeric branches (MassPing.py:116-119) both append `float(rtt)`. They are one branch in the model, because the comparison with 0.5 cannot change the result.
- PyText.IsSpace: whitespace is Python's `str.isspace` set. The regular expression's `\s` is taken to be the same set.
- Rank.SortDesc: Python's `sorted` is Timsort. The model uses an insertion sort, which has the same result because both are stable sorts by the same key.
- Encode.PayloadRoundTrip: only stated for a non-empty batch (`|s| >= 1`), because an empty batch gives the payload "", which decodes to one unreadable line, not to none. It is also only stated for entries whose tags hold no `,` or newline (and a function with no space). Line-protocol escaping is not done by the code, so other entries produce records that do not read back.
