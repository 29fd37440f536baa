/**
 * The handful of Python string builtins the pipeline relies on: str.isspace,
 * str.strip(), str.split() with no separator, str.split(sep) for one
 * character and sep.join(parts).
 */
module PyText {

  /** Python's str.isspace for one character (the same set that the regular
      expression classes \s and \S use for str patterns). */
  predicate IsSpace(c: char) {
    || ('\t' <= c <= '\r')
    || ('\U{1C}' <= c <= '\U{20}')
    || c == '\U{85}' || c == '\U{A0}' || c == '\U{1680}'
    || ('\U{2000}' <= c <= '\U{200A}')
    || c == '\U{2028}' || c == '\U{2029}' || c == '\U{202F}'
    || c == '\U{205F}' || c == '\U{3000}'
  }

  /** A non-empty run of non-whitespace characters: what \S+ matches and what
      str.split() produces. */
  predicate IsToken(t: string) {
    |t| > 0 && forall i :: 0 <= i < |t| ==> !IsSpace(t[i])
  }

  /** A non-empty run of whitespace: what \s+ matches. */
  predicate IsBlank(t: string) {
    |t| > 0 && forall i :: 0 <= i < |t| ==> IsSpace(t[i])
  }

  function StripLeft(s: string): (r: string)
    ensures |r| <= |s| && r == s[|s| - |r|..]
    ensures r == [] || !IsSpace(r[0])
    ensures forall i :: 0 <= i < |s| - |r| ==> IsSpace(s[i])
  {
    if s != [] && IsSpace(s[0]) then StripLeft(s[1..]) else s
  }

  function StripRight(s: string): (r: string)
    ensures |r| <= |s| && r == s[..|r|]
    ensures r == [] || !IsSpace(r[|r| - 1])
    ensures forall i :: |r| <= i < |s| ==> IsSpace(s[i])
  {
    if s != [] && IsSpace(s[|s| - 1]) then StripRight(s[..|s| - 1]) else s
  }

  /** Python's s.strip(): leading and trailing whitespace removed. */
  function Strip(s: string): string {
    StripRight(StripLeft(s))
  }

  /** Length of the longest whitespace-free prefix of s. */
  function TokenLength(s: string): (k: nat)
    ensures k <= |s|
    ensures forall i :: 0 <= i < k ==> !IsSpace(s[i])
    ensures k == |s| || IsSpace(s[k])
  {
    if s == [] || IsSpace(s[0]) then 0 else 1 + TokenLength(s[1..])
  }

  /** Python's s.split() with no argument: the maximal runs of non-whitespace. */
  function Fields(s: string): seq<string>
    decreases |s|
  {
    if s == [] then []
    else if IsSpace(s[0]) then Fields(s[1..])
    else
      var k := TokenLength(s);
      [s[..k]] + Fields(s[k..])
  }

  /** Every field of a split is a non-empty run of non-whitespace. */
  lemma {:induction false} FieldsAreTokens(s: string)
    ensures forall i :: 0 <= i < |Fields(s)| ==> IsToken(Fields(s)[i])
    decreases |s|
  {
    if s != [] {
      if IsSpace(s[0]) {
        FieldsAreTokens(s[1..]);
      } else {
        var k := TokenLength(s);
        FieldsAreTokens(s[k..]);
        assert IsToken(s[..k]);
        assert Fields(s) == [s[..k]] + Fields(s[k..]);
      }
    }
  }

  /** Python's sep.join(parts). */
  function Join(sep: string, parts: seq<string>): string
    decreases |parts|
  {
    if parts == [] then []
    else if |parts| == 1 then parts[0]
    else parts[0] + sep + Join(sep, parts[1..])
  }

  /** Python's s.split(sep) for a one-character separator: never empty, keeps
      the empty pieces between adjacent separators and at either end. */
  function SplitOn(s: string, sep: char): (r: seq<string>)
    ensures |r| >= 1
    ensures forall i :: 0 <= i < |r| ==> sep !in r[i]
    decreases |s|
  {
    if s == [] then [[]]
    else
      var rest := SplitOn(s[1..], sep);
      if s[0] == sep then [[]] + rest
      else [[s[0]] + rest[0]] + rest[1..]
  }

  lemma {:induction false} TokenLengthOfToken(t: string, rest: string)
    requires IsToken(t)
    requires rest == [] || IsSpace(rest[0])
    ensures TokenLength(t + rest) == |t|
    decreases |t|
  {
    assert (t + rest)[0] == t[0];
    assert (t + rest)[1..] == t[1..] + rest;
    if |t| > 1 {
      TokenLengthOfToken(t[1..], rest);
    } else {
      assert t[1..] + rest == rest;
    }
  }

  /** A token followed by whitespace (or nothing) contributes exactly itself. */
  lemma {:induction false} FieldsOfTokenThen(t: string, rest: string)
    requires IsToken(t)
    requires rest == [] || IsSpace(rest[0])
    ensures Fields(t + rest) == [t] + Fields(rest)
  {
    TokenLengthOfToken(t, rest);
    var s := t + rest;
    assert s[0] == t[0];
    assert s[..|t|] == t;
    assert s[|t|..] == rest;
  }

  /** Whitespace at the end of a string does not change its fields. */
  lemma {:induction false} FieldsDropTrailingSpace(s: string, c: char)
    requires IsSpace(c)
    ensures Fields(s + [c]) == Fields(s)
    decreases |s|
  {
    var sc := s + [c];
    if s == [] {
      assert sc == [c];
      assert sc[1..] == [];
    } else if IsSpace(s[0]) {
      assert sc[1..] == s[1..] + [c];
      FieldsDropTrailingSpace(s[1..], c);
    } else {
      var k := TokenLength(s);
      TokenLengthOfToken(s[..k], s[k..] + [c]);
      assert s[..k] + (s[k..] + [c]) == sc;
      assert sc[..k] == s[..k];
      assert sc[k..] == s[k..] + [c];
      FieldsDropTrailingSpace(s[k..], c);
    }
  }

  lemma {:induction false} FieldsOfStripLeft(s: string)
    ensures Fields(StripLeft(s)) == Fields(s)
    decreases |s|
  {
    if s != [] && IsSpace(s[0]) {
      FieldsOfStripLeft(s[1..]);
    }
  }

  lemma {:induction false} FieldsOfStripRight(s: string)
    ensures Fields(StripRight(s)) == Fields(s)
    decreases |s|
  {
    if s != [] && IsSpace(s[|s| - 1]) {
      var p := s[..|s| - 1];
      assert s == p + [s[|s| - 1]];
      FieldsDropTrailingSpace(p, s[|s| - 1]);
      FieldsOfStripRight(p);
    }
  }

  /** The strip at MassPing.py:97 has no effect on the split at line 98. */
  lemma FieldsOfStrip(s: string)
    ensures Fields(Strip(s)) == Fields(s)
  {
    FieldsOfStripLeft(s);
    FieldsOfStripRight(StripLeft(s));
  }

  /** A line read with its newline splits like the line without it. */
  lemma FieldsOfStrippedLine(body: string)
    ensures Fields(Strip(body + "\n")) == Fields(body)
  {
    FieldsOfStrip(body + "\n");
    FieldsDropTrailingSpace(body, '\n');
  }

  /** Splitting a space-joined list of tokens gives the tokens back. */
  lemma {:induction false} FieldsOfJoin(ts: seq<string>)
    requires forall i :: 0 <= i < |ts| ==> IsToken(ts[i])
    ensures Fields(Join(" ", ts)) == ts
    decreases |ts|
  {
    if ts == [] {
    } else if |ts| == 1 {
      FieldsOfTokenThen(ts[0], []);
      assert ts[0] + [] == ts[0];
    } else {
      var rest := Join(" ", ts[1..]);
      assert Join(" ", ts) == ts[0] + (" " + rest);
      FieldsOfTokenThen(ts[0], " " + rest);
      assert (" " + rest)[1..] == rest;
      FieldsOfJoin(ts[1..]);
    }
  }

  /** Joining the pieces of a split restores the string. */
  lemma {:induction false} JoinOfSplit(s: string, sep: char)
    ensures Join([sep], SplitOn(s, sep)) == s
    decreases |s|
  {
    if s != [] {
      var rest := SplitOn(s[1..], sep);
      JoinOfSplit(s[1..], sep);
      if |rest| == 1 {
        if s[0] != sep {
          assert SplitOn(s, sep) == [[s[0]] + rest[0]];
        }
      } else {
        assert rest == [rest[0]] + rest[1..];
        assert Join([sep], rest) == rest[0] + [sep] + Join([sep], rest[1..]);
        if s[0] == sep {
          assert SplitOn(s, sep) == [[]] + rest;
        } else {
          assert SplitOn(s, sep) == [[s[0]] + rest[0]] + rest[1..];
          assert SplitOn(s, sep)[1..] == rest[1..];
        }
      }
    }
  }

  lemma {:induction false} SplitOnPiece(p: string, sep: char, tail: string)
    requires sep !in p
    ensures SplitOn(p + tail, sep) == [p + SplitOn(tail, sep)[0]] + SplitOn(tail, sep)[1..]
    decreases |p|
  {
    if p != [] {
      assert (p + tail)[0] == p[0];
      assert (p + tail)[1..] == p[1..] + tail;
      SplitOnPiece(p[1..], sep, tail);
      assert [p[0]] + (p[1..] + SplitOn(tail, sep)[0]) == p + SplitOn(tail, sep)[0];
    } else {
      var r := SplitOn(tail, sep);
      assert p + tail == tail;
      assert p + r[0] == r[0];
      assert r == [r[0]] + r[1..];
    }
  }

  /** Splitting a joined list of separator-free pieces gives the pieces back. */
  lemma {:induction false} SplitOfJoin(parts: seq<string>, sep: char)
    requires |parts| >= 1
    requires forall i :: 0 <= i < |parts| ==> sep !in parts[i]
    ensures SplitOn(Join([sep], parts), sep) == parts
    decreases |parts|
  {
    if |parts| == 1 {
      SplitOnPiece(parts[0], sep, []);
      assert parts[0] + [] == parts[0];
    } else {
      var tail := [sep] + Join([sep], parts[1..]);
      assert Join([sep], parts) == parts[0] + tail;
      SplitOnPiece(parts[0], sep, tail);
      assert tail[0] == sep && tail[1..] == Join([sep], parts[1..]);
      SplitOfJoin(parts[1..], sep);
      assert SplitOn(tail, sep) == [[]] + parts[1..];
      assert parts[0] + [] == parts[0];
    }
  }
}
