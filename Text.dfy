/** The few string operations of the .NET base library that the client relies on:
    scanning up to a stop character, String.Split on one separator, String.Join,
    and String.Trim. */
module Text {

  /** No character of s occurs in stops. */
  predicate Avoids(s: string, stops: string) {
    forall i, j :: 0 <= i < |s| && 0 <= j < |stops| ==> s[i] != stops[j]
  }

  /** Length of the longest prefix of s that contains no character of stops. */
  function PrefixAvoiding(s: string, stops: string): (n: nat)
    ensures n <= |s|
    ensures Avoids(s[..n], stops)
    ensures n < |s| ==> s[n] in stops
  {
    if s == [] || s[0] in stops then 0 else 1 + PrefixAvoiding(s[1..], stops)
  }

  /** The prefix scan stops exactly at the end of a stop-free prefix that is followed by a stop character. */
  lemma {:induction false} PrefixAvoidingAt(s: string, stops: string, n: nat)
    requires n <= |s| && Avoids(s[..n], stops)
    requires n < |s| ==> s[n] in stops
    ensures PrefixAvoiding(s, stops) == n
  {
    if n > 0 {
      assert s[..n][0] == s[0];
      assert s[1..][..n - 1] == s[..n][1..];
      PrefixAvoidingAt(s[1..], stops, n - 1);
    }
  }

  /** String.Split(string) with a one-character separator: every occurrence of sep
      ends a field, and empty fields are kept ("a  b" has three fields). */
  function Split(s: string, sep: char): (fields: seq<string>)
    ensures |fields| >= 1
    decreases |s|
  {
    var n := PrefixAvoiding(s, [sep]);
    if n == |s| then [s] else [s[..n]] + Split(s[n + 1..], sep)
  }

  /** String.Join(string, string[]) with a one-character separator. */
  function Join(fields: seq<string>, sep: char): string
  {
    if |fields| == 0 then ""
    else if |fields| == 1 then fields[0]
    else fields[0] + [sep] + Join(fields[1..], sep)
  }

  /** Joining a field in front of a non-empty list puts one separator between them. */
  lemma JoinCons(field: string, rest: seq<string>, sep: char)
    requires |rest| >= 1
    ensures Join([field] + rest, sep) == field + [sep] + Join(rest, sep)
  {
    assert ([field] + rest)[1..] == rest;
  }

  /** Splitting loses nothing: joining the fields gives back the input. */
  lemma {:induction false} JoinSplit(s: string, sep: char)
    ensures Join(Split(s, sep), sep) == s
    decreases |s|
  {
    var n := PrefixAvoiding(s, [sep]);
    if n == |s| {
      assert s[..n] == s;
    } else {
      var tail := s[n + 1..];
      var rest := Split(tail, sep);
      JoinSplit(tail, sep);
      assert Split(s, sep) == [s[..n]] + rest;
      JoinCons(s[..n], rest, sep);
      assert s[n] == sep;
      assert s == s[..n] + [s[n]] + tail;
    }
  }

  /** No field of a split holds the separator. */
  lemma {:induction false} SplitAvoids(s: string, sep: char)
    ensures forall i :: 0 <= i < |Split(s, sep)| ==> Avoids(Split(s, sep)[i], [sep])
    decreases |s|
  {
    var n := PrefixAvoiding(s, [sep]);
    if n == |s| {
      assert s[..n] == s;
    } else {
      var tail := s[n + 1..];
      SplitAvoids(tail, sep);
      var fields := Split(s, sep);
      assert fields == [s[..n]] + Split(tail, sep);
      forall i | 0 <= i < |fields| ensures Avoids(fields[i], [sep]) {
        if i > 0 {
          assert fields[i] == Split(tail, sep)[i - 1];
        }
      }
    }
  }

  /** Splitting a join of separator-free fields gives the fields back. */
  lemma {:induction false} SplitJoin(fields: seq<string>, sep: char)
    requires |fields| >= 1
    requires forall i :: 0 <= i < |fields| ==> Avoids(fields[i], [sep])
    ensures Split(Join(fields, sep), sep) == fields
    decreases |fields|
  {
    var s := Join(fields, sep);
    if |fields| == 1 {
      PrefixAvoidingAt(s, [sep], |s|);
      assert s[..|s|] == s;
    } else {
      var f := fields[0];
      var tail := Join(fields[1..], sep);
      assert s == f + [sep] + tail;
      assert s[..|f|] == f;
      PrefixAvoidingAt(s, [sep], |f|);
      assert s[|f| + 1..] == tail;
      SplitJoin(fields[1..], sep);
      assert fields == [f] + fields[1..];
    }
  }

  /** Char.IsWhiteSpace: the Unicode space, line and paragraph separators,
      U+0009 to U+000D, U+0085 and U+00A0. */
  predicate IsWhiteSpace(c: char) {
    var n := c as int;
    (0x09 <= n <= 0x0D) || n == 0x20 || n == 0x85 || n == 0xA0 || n == 0x1680 ||
    (0x2000 <= n <= 0x200A) || n == 0x2028 || n == 0x2029 || n == 0x202F ||
    n == 0x205F || n == 0x3000
  }

  /** String.TrimStart(): drops the leading white space and nothing else. */
  function TrimStart(s: string): (r: string)
    ensures |r| <= |s| && r == s[|s| - |r|..]
    ensures forall i :: 0 <= i < |s| - |r| ==> IsWhiteSpace(s[i])
    ensures r != [] ==> !IsWhiteSpace(r[0])
  {
    if s != [] && IsWhiteSpace(s[0]) then TrimStart(s[1..]) else s
  }

  /** String.TrimEnd(): drops the trailing white space and nothing else. */
  function TrimEnd(s: string): (r: string)
    ensures |r| <= |s| && r == s[..|r|]
    ensures forall i :: |r| <= i < |s| ==> IsWhiteSpace(s[i])
    ensures r != [] ==> !IsWhiteSpace(r[|r| - 1])
  {
    if s != [] && IsWhiteSpace(s[|s| - 1]) then TrimEnd(s[..|s| - 1]) else s
  }

  /** String.Trim(): the slice of s left after dropping white space at both ends. */
  function Trim(s: string): (r: string)
    ensures var lo := |s| - |TrimStart(s)|;
      && lo + |r| <= |s| && r == s[lo..lo + |r|]
      && (forall i :: 0 <= i < lo ==> IsWhiteSpace(s[i]))
      && (forall i :: lo + |r| <= i < |s| ==> IsWhiteSpace(s[i]))
    ensures r != [] ==> !IsWhiteSpace(r[0]) && !IsWhiteSpace(r[|r| - 1])
  {
    var t := TrimStart(s);
    var r := TrimEnd(t);
    TrimSlices(s, t, r);
    r
  }

  lemma TrimSlices(s: string, t: string, r: string)
    requires |t| <= |s| && t == s[|s| - |t|..]
    requires |r| <= |t| && r == t[..|r|]
    requires forall i :: |r| <= i < |t| ==> IsWhiteSpace(t[i])
    ensures var lo := |s| - |t|; r == s[lo..lo + |r|]
    ensures var lo := |s| - |t|; forall i :: lo + |r| <= i < |s| ==> IsWhiteSpace(s[i])
  {
    var lo := |s| - |t|;
    forall i | lo + |r| <= i < |s| ensures IsWhiteSpace(s[i]) {
      assert s[i] == t[i - lo];
    }
  }
}
