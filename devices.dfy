/**
 * The data the pipeline carries from one stage to the next: the per-device
 * list that MassPing.py keeps in its `iplist` dictionary, the dictionary
 * itself (insertion-ordered, as Python dicts are) and the failures that can
 * end a cycle.
 */
module Devices {

  /** The placeholder RTT stored for a device that did not answer. */
  const Sentinel: real := 9999.0

  /** RTT in milliseconds above which a device is shown as a warning. */
  const WarningRatio: real := 0.5

  /** The list `[hostname, location, function]` of a roster line (the function column is
      called `role` here, `function` being a keyword), together
      with the RTT values the probe stage appends to it: `rtts[k]` is the
      list's element at index 3 + k. */
  datatype Entry = Entry(hostname: string, location: string, role: string, rtts: seq<real>)

  /** An insertion-ordered dictionary from address to Entry: `keys` is the
      order in which addresses were first inserted. */
  datatype Table = Table(keys: seq<string>, vals: map<string, Entry>) {

    ghost predicate Valid() {
      && (forall i, j :: 0 <= i < j < |keys| ==> keys[i] != keys[j])
      && (forall a :: a in vals <==> a in keys)
    }

    /** `d[a] = e`: a new address goes to the end of the order, an existing
        one keeps its place and gets the new value. */
    function Put(a: string, e: Entry): (r: Table)
      requires Valid()
      ensures r.Valid()
      ensures r.vals == vals[a := e]
      ensures r.keys == if a in vals then keys else keys + [a]
    {
      if a in vals then Table(keys, vals[a := e]) else Table(keys + [a], vals[a := e])
    }

    /** `d[a] += (x,)`: one more value appended to an existing entry. */
    function AddRtt(a: string, x: real): (r: Table)
      requires a in vals
      ensures r.keys == keys && r.vals.Keys == vals.Keys
      ensures r.vals[a] == vals[a].(rtts := vals[a].rtts + [x])
      ensures forall b :: b in vals && b != a ==> r.vals[b] == vals[b]
    {
      Table(keys, vals[a := vals[a].(rtts := vals[a].rtts + [x])])
    }
  }

  const EmptyTable := Table([], map[])

  /** The exceptions that abort one run of the pipeline. */
  datatype Error =
    | RosterUnpack(lineIndex: nat, fieldCount: nat) // ValueError from the 4-way unpack (0-based line)
    | ProbeNoMatch(line: string)                    // AttributeError: re.match returned None
    | NotANumber(value: string)                     // ValueError from float()
    | UnknownAddress(address: string)               // KeyError on iplist[ipaddress]
    | MissingResult(address: string)                // IndexError on k[1][3] in the sort key
}
