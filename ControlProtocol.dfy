/** The Tor control-port reply codec: the "250 OK" acknowledgement check and the
    two shapes of a GETINFO reply (section 2.3 and section 3.9 of Tor's
    control-spec.txt). The line terminator `nl` is a parameter; in the client it
    is the host's Environment.NewLine. */
module ControlProtocol {
  import opened Errors
  import opened Text

  /** A terminator the grammar can be stated over: non-empty and made of control
      characters only, as "\n" and "\r\n" are, so that it shares no character
      with the fixed text of the protocol ("250 OK", ".", "GETINFO", ...). */
  predicate ValidTerminator(nl: string) {
    |nl| > 0 && forall i :: 0 <= i < |nl| ==> nl[i] < ' '
  }

  const AckLine := "250 OK"
  const EndOfData := "."

  /** The only reply accepted as an acknowledgement. */
  function AckReply(nl: string): string { AckLine + nl }

  function AuthenticateCommand(password: string): string { "AUTHENTICATE \"" + password + "\"" }
  const SignalNewNym := "SIGNAL NEWNYM"
  const StreamStatusKey := "stream-status"
  function GetInfoCommand(key: string): string { "GETINFO " + key }
  function CloseStreamCommand(streamId: string): string { "CLOSESTREAM " + streamId + " 1" }

  /** The diagnostic raised when a reply is not what a command expects. */
  function Responded(response: string, command: string): string {
    "The TOR control responded:\n" + Trim(response) + "\non the command " + command
  }

  /** The acknowledgement check: ordinal equality with "250 OK" + nl. */
  function CheckAck(command: string, response: string, nl: string): (r: Outcome)
    ensures r.Pass? <==> response == AckReply(nl)
    ensures r.Fail? ==> r.error == ProxyException(Responded(response, command))
  {
    if response == AckReply(nl) then Pass else Fail(ProxyException(Responded(response, command)))
  }

  // ---------------------------------------------------------------- lines

  /** Each line followed by the terminator. */
  function JoinLines(lines: seq<string>, nl: string): string
  {
    if lines == [] then "" else lines[0] + nl + JoinLines(lines[1..], nl)
  }

  /** Cuts s into terminator-ended lines, each line being the text up to the
      first character of nl; None if s is not such a concatenation. */
  function SplitLines(s: string, nl: string): Option<seq<string>>
    decreases |s|
  {
    if s == [] then Some([])
    else if nl == [] then None
    else
      var n := PrefixAvoiding(s, nl);
      if nl <= s[n..] then
        match SplitLines(s[n + |nl|..], nl)
        case Some(rest) => Some([s[..n]] + rest)
        case None => None
      else None
  }

  lemma {:induction false} JoinLinesAppend(a: seq<string>, b: seq<string>, nl: string)
    ensures JoinLines(a + b, nl) == JoinLines(a, nl) + JoinLines(b, nl)
  {
    if a != [] {
      assert (a + b)[1..] == a[1..] + b;
      JoinLinesAppend(a[1..], b, nl);
    } else {
      assert a + b == b;
    }
  }

  /** Round trip: lines free of terminator characters are recovered from their join. */
  lemma {:induction false} SplitJoinLines(lines: seq<string>, nl: string)
    requires |nl| > 0
    requires forall i :: 0 <= i < |lines| ==> Avoids(lines[i], nl)
    ensures SplitLines(JoinLines(lines, nl), nl) == Some(lines)
  {
    if lines != [] {
      var l := lines[0];
      var rest := JoinLines(lines[1..], nl);
      SplitJoinLines(lines[1..], nl);
      SplitLinesCons(l, rest, nl);
      assert lines == [l] + lines[1..];
    }
  }

  /** The three parts of a + b + c, recovered by slicing. */
  lemma ConcatSlices(a: string, b: string, c: string)
    ensures (a + b + c)[..|a|] == a
    ensures (a + b + c)[|a|..|a| + |b|] == b
    ensures (a + b + c)[|a| + |b|..] == c
  {
  }

  /** A terminator-free prefix followed by the terminator is where the line scan
      stops, and the terminator is found there. */
  lemma LineEndsAt(s: string, nl: string, n: nat)
    requires |nl| > 0 && n + |nl| <= |s|
    requires Avoids(s[..n], nl) && s[n..n + |nl|] == nl
    ensures PrefixAvoiding(s, nl) == n && nl <= s[n..]
  {
    assert s[n] == s[n..n + |nl|][0];
    PrefixAvoidingAt(s, nl, n);
    assert s[n..][..|nl|] == s[n..n + |nl|];
  }

  /** A terminator-free line followed by the terminator is split off as the first line. */
  lemma {:induction false} SplitLinesCons(line: string, rest: string, nl: string)
    requires |nl| > 0 && Avoids(line, nl)
    requires SplitLines(rest, nl).Some?
    ensures SplitLines(line + nl + rest, nl) == Some([line] + SplitLines(rest, nl).value)
  {
    ConcatSlices(line, nl, rest);
    LineEndsAt(line + nl + rest, nl, |line|);
  }

  /** One step of SplitLines on a non-empty input it accepts. */
  lemma SplitLinesStep(s: string, nl: string) returns (n: nat)
    requires s != [] && SplitLines(s, nl).Some?
    ensures n + |nl| <= |s| && nl != []
    ensures Avoids(s[..n], nl) && s[n..n + |nl|] == nl
    ensures SplitLines(s[n + |nl|..], nl).Some?
    ensures SplitLines(s, nl).value == [s[..n]] + SplitLines(s[n + |nl|..], nl).value
  {
    assert nl != [];
    n := PrefixAvoiding(s, nl);
    assert nl <= s[n..];
    assert n + |nl| <= |s|;
    assert SplitLines(s[n + |nl|..], nl).Some?;
  }

  /** Round trip the other way: whatever SplitLines accepts is the join of what it returns. */
  lemma {:induction false} JoinSplitLines(s: string, nl: string)
    requires SplitLines(s, nl).Some?
    ensures JoinLines(SplitLines(s, nl).value, nl) == s
    decreases |s|
  {
    if s != [] {
      var n := SplitLinesStep(s, nl);
      var tail := s[n + |nl|..];
      var line := s[..n];
      var rest := SplitLines(tail, nl).value;
      JoinSplitLines(tail, nl);
      JoinLinesCons(line, rest, nl);
      SliceThree(s, n, n + |nl|);
    }
  }

  lemma JoinLinesCons(line: string, rest: seq<string>, nl: string)
    ensures JoinLines([line] + rest, nl) == line + nl + JoinLines(rest, nl)
  {
    assert ([line] + rest)[1..] == rest;
  }

  lemma SliceThree(s: string, i: nat, j: nat)
    requires i <= j <= |s|
    ensures s == s[..i] + s[i..j] + s[j..]
  {
  }

  /** The lines SplitLines returns hold no terminator character. */
  lemma {:induction false} SplitLinesAvoid(s: string, nl: string)
    requires SplitLines(s, nl).Some?
    ensures forall i :: 0 <= i < |SplitLines(s, nl).value| ==> Avoids(SplitLines(s, nl).value[i], nl)
    decreases |s|
  {
    if s != [] {
      var n := SplitLinesStep(s, nl);
      var tail := s[n + |nl|..];
      var lines := SplitLines(s, nl).value;
      SplitLinesAvoid(tail, nl);
      forall i | 0 <= i < |lines| ensures Avoids(lines[i], nl) {
        if i > 0 {
          assert lines[i] == SplitLines(tail, nl).value[i - 1];
        }
      }
    }
  }

  // ---------------------------------------------------------------- GETINFO

  /** The two reply shapes of GETINFO <key>:
      SingleLine(v)  is  "250-<key>=<v>" NL "250 OK" NL
      MultiLine(rs)  is  "250+<key>=" NL (<row> NL)* "." NL "250 OK" NL */
  datatype InfoReply = SingleLine(value: string) | MultiLine(rows: seq<string>)

  /** What the grammar allows inside a reply: no terminator character in the
      value, and multi-line rows that are non-empty and free of terminator characters. */
  predicate WellFormed(m: InfoReply, nl: string) {
    match m
    case SingleLine(v) => Avoids(v, nl)
    case MultiLine(rows) => forall i :: 0 <= i < |rows| ==> rows[i] != [] && Avoids(rows[i], nl)
  }

  function SingleHeader(key: string): string { "250-" + key + "=" }
  function MultiHeader(key: string, nl: string): string { "250+" + key + "=" + nl }

  /** The reply text of a given shape. */
  function Render(key: string, m: InfoReply, nl: string): string {
    match m
    case SingleLine(v) => "250-" + key + "=" + v + nl + "250 OK" + nl
    case MultiLine(rows) => "250+" + key + "=" + nl + JoinLines(rows, nl) + "." + nl + "250 OK" + nl
  }

  /** The rows the reply carries (the regular expression's "row" captures): none
      for an empty single-line value. */
  function Captures(m: InfoReply): seq<string> {
    match m
    case SingleLine(v) => if v == [] then [] else [v]
    case MultiLine(rows) => rows
  }

  /** Matches the whole of `reply` against the two alternatives of the reply grammar. */
  function MatchBody(reply: string, key: string, nl: string): Option<InfoReply> {
    if SingleHeader(key) <= reply then
      match SplitLines(reply[|SingleHeader(key)|..], nl)
      case Some(lines) =>
        if |lines| == 2 && lines[1] == AckLine then Some(SingleLine(lines[0])) else None
      case None => None
    else if MultiHeader(key, nl) <= reply then
      match SplitLines(reply[|MultiHeader(key, nl)|..], nl)
      case Some(lines) =>
        if |lines| >= 2 && lines[|lines| - 2..] == [EndOfData, AckLine]
           && forall i :: 0 <= i < |lines| - 2 ==> lines[i] != []
        then Some(MultiLine(lines[..|lines| - 2]))
        else None
      case None => None
    else None
  }

  /** The anchored match of the reply grammar. The final `$` anchor also matches
      just before a last '\n', so one extra trailing '\n' is tolerated. */
  function MatchInfo(reply: string, key: string, nl: string): Option<InfoReply> {
    var exact := MatchBody(reply, key, nl);
    if exact.Some? then exact
    else if |reply| > 0 && reply[|reply| - 1] == '\n' then MatchBody(reply[..|reply| - 1], key, nl)
    else None
  }

  /** Each row split on a single space, empty fields kept. */
  function SplitRows(rows: seq<string>): seq<seq<string>> {
    seq(|rows|, i requires 0 <= i < |rows| => Split(rows[i], ' '))
  }

  /** Splitting the rows loses nothing and keeps their order: the fields of row i,
      joined with spaces, give row i back, and no field holds a space. */
  lemma SplitRowsLossless(rows: seq<string>)
    ensures |SplitRows(rows)| == |rows|
    ensures forall i :: 0 <= i < |rows| ==> Join(SplitRows(rows)[i], ' ') == rows[i]
    ensures forall i, j :: 0 <= i < |rows| && 0 <= j < |SplitRows(rows)[i]| ==> Avoids(SplitRows(rows)[i][j], [' '])
  {
    forall i | 0 <= i < |rows|
      ensures Join(SplitRows(rows)[i], ' ') == rows[i]
      ensures forall j :: 0 <= j < |SplitRows(rows)[i]| ==> Avoids(SplitRows(rows)[i][j], [' '])
    {
      JoinSplit(rows[i], ' ');
      SplitAvoids(rows[i], ' ');
    }
  }

  /** The result of GETINFO <key> given the control port's reply. */
  function ParseInfo(reply: string, key: string, nl: string): (r: Result<seq<seq<string>>>)
    ensures r.Err? ==> r.error == ProxyException(Responded(reply, GetInfoCommand(key)))
  {
    match MatchInfo(reply, key, nl)
    case Some(m) => Ok(SplitRows(Captures(m)))
    case None => Err(ProxyException(Responded(reply, GetInfoCommand(key))))
  }

  // ---------------------------------------------------------------- lemmas

  lemma Assoc(a: string, b: string, c: string)
    ensures a + b + c == a + (b + c)
  {
  }

  /** A single-line reply is its header followed by two lines: the value and "250 OK". */
  lemma RenderSingleLines(key: string, v: string, nl: string)
    ensures Render(key, SingleLine(v), nl) == SingleHeader(key) + JoinLines([v, AckLine], nl)
  {
    var h := SingleHeader(key);
    assert JoinLines([AckLine], nl) == AckLine + nl + "";
    assert AckLine + nl + "" == AckLine + nl;
    assert JoinLines([v, AckLine], nl) == v + nl + (AckLine + nl);
    calc {
      Render(key, SingleLine(v), nl);
      h + v + nl + AckLine + nl;
      { Assoc(h + v + nl, AckLine, nl); }
      h + v + nl + (AckLine + nl);
      { Assoc(h + v, nl, AckLine + nl); }
      h + v + (nl + (AckLine + nl));
      { Assoc(h, v, nl + (AckLine + nl)); }
      h + (v + (nl + (AckLine + nl)));
      { Assoc(v, nl, AckLine + nl); }
      h + (v + nl + (AckLine + nl));
    }
  }

  /** A multi-line reply is its header followed by the rows, ".", and "250 OK", one per line. */
  lemma RenderMultiLines(key: string, rows: seq<string>, nl: string)
    ensures Render(key, MultiLine(rows), nl) == MultiHeader(key, nl) + JoinLines(rows + [EndOfData, AckLine], nl)
  {
    var h := MultiHeader(key, nl);
    var j := JoinLines(rows, nl);
    JoinLinesAppend(rows, [EndOfData, AckLine], nl);
    assert JoinLines([AckLine], nl) == AckLine + nl + "";
    assert AckLine + nl + "" == AckLine + nl;
    assert JoinLines([EndOfData, AckLine], nl) == EndOfData + nl + (AckLine + nl);
    calc {
      Render(key, MultiLine(rows), nl);
      h + j + EndOfData + nl + AckLine + nl;
      { Assoc(h + j + EndOfData + nl, AckLine, nl); }
      h + j + EndOfData + nl + (AckLine + nl);
      { Assoc(h + j + EndOfData, nl, AckLine + nl); }
      h + j + EndOfData + (nl + (AckLine + nl));
      { Assoc(h + j, EndOfData, nl + (AckLine + nl)); }
      h + j + (EndOfData + (nl + (AckLine + nl)));
      { Assoc(EndOfData, nl, AckLine + nl); }
      h + j + (EndOfData + nl + (AckLine + nl));
      { Assoc(h, j, EndOfData + nl + (AckLine + nl)); }
      h + (j + (EndOfData + nl + (AckLine + nl)));
    }
  }

  lemma FixedLinesAvoid(nl: string)
    requires ValidTerminator(nl)
    ensures Avoids(AckLine, nl) && Avoids(EndOfData, nl)
  {
    forall i | 0 <= i < |AckLine| ensures AckLine[i] !in nl {
      assert AckLine[i] >= ' ';
    }
    assert EndOfData[0] >= ' ';
  }

  /** Every reply of a well-formed shape is matched, and as that shape. */
  lemma MatchBodyComplete(key: string, m: InfoReply, nl: string)
    requires ValidTerminator(nl) && WellFormed(m, nl)
    ensures MatchBody(Render(key, m, nl), key, nl) == Some(m)
  {
    match m
    case SingleLine(v) => SingleLineComplete(key, v, nl);
    case MultiLine(rows) => MultiLineComplete(key, rows, nl);
  }

  lemma AfterPrefix(h: string, t: string)
    ensures h <= h + t && (h + t)[|h|..] == t
  {
  }

  lemma {:induction false} SingleLineComplete(key: string, v: string, nl: string)
    requires ValidTerminator(nl) && Avoids(v, nl)
    ensures MatchBody(Render(key, SingleLine(v), nl), key, nl) == Some(SingleLine(v))
  {
    FixedLinesAvoid(nl);
    var lines := [v, AckLine];
    RenderSingleLines(key, v, nl);
    AfterPrefix(SingleHeader(key), JoinLines(lines, nl));
    SplitJoinLines(lines, nl);
  }

  lemma {:induction false} MultiLineComplete(key: string, rows: seq<string>, nl: string)
    requires ValidTerminator(nl)
    requires forall i :: 0 <= i < |rows| ==> rows[i] != [] && Avoids(rows[i], nl)
    ensures MatchBody(Render(key, MultiLine(rows), nl), key, nl) == Some(MultiLine(rows))
  {
    FixedLinesAvoid(nl);
    var reply := Render(key, MultiLine(rows), nl);
    var lines := rows + [EndOfData, AckLine];
    RenderMultiLines(key, rows, nl);
    assert reply[3] == '+';
    assert SingleHeader(key)[3] == '-';
    assert !(SingleHeader(key) <= reply);
    AfterPrefix(MultiHeader(key, nl), JoinLines(lines, nl));
    forall i | 0 <= i < |lines| ensures Avoids(lines[i], nl) {
      if i < |rows| {
        assert lines[i] == rows[i];
      }
    }
    SplitJoinLines(lines, nl);
    assert lines[..|lines| - 2] == rows;
    assert lines[|lines| - 2..] == [EndOfData, AckLine];
  }

  /** Whatever is matched is exactly the rendering of a well-formed shape. */
  lemma MatchBodySound(reply: string, key: string, nl: string)
    requires MatchBody(reply, key, nl).Some?
    ensures WellFormed(MatchBody(reply, key, nl).value, nl)
    ensures Render(key, MatchBody(reply, key, nl).value, nl) == reply
  {
    if SingleHeader(key) <= reply {
      SingleLineSound(reply, key, nl);
    } else {
      MultiLineSound(reply, key, nl);
    }
  }

  lemma SingleLineSound(reply: string, key: string, nl: string)
    requires MatchBody(reply, key, nl).Some? && SingleHeader(key) <= reply
    ensures MatchBody(reply, key, nl).value.SingleLine?
    ensures WellFormed(MatchBody(reply, key, nl).value, nl)
    ensures Render(key, MatchBody(reply, key, nl).value, nl) == reply
  {
    var h := SingleHeader(key);
    var rest := reply[|h|..];
    assert reply == h + rest;
    var lines := SplitLines(rest, nl).value;
    assert MatchBody(reply, key, nl) == Some(SingleLine(lines[0]));
    JoinSplitLines(rest, nl);
    SplitLinesAvoid(rest, nl);
    assert lines == [lines[0], AckLine];
    RenderSingleLines(key, lines[0], nl);
  }

  lemma MultiLineSound(reply: string, key: string, nl: string)
    requires MatchBody(reply, key, nl).Some? && !(SingleHeader(key) <= reply)
    ensures MatchBody(reply, key, nl).value.MultiLine?
    ensures WellFormed(MatchBody(reply, key, nl).value, nl)
    ensures Render(key, MatchBody(reply, key, nl).value, nl) == reply
  {
    var h := MultiHeader(key, nl);
    assert h <= reply;
    var rest := reply[|h|..];
    assert reply == h + rest;
    var lines := SplitLines(rest, nl).value;
    var rows := lines[..|lines| - 2];
    assert MatchBody(reply, key, nl) == Some(MultiLine(rows));
    JoinSplitLines(rest, nl);
    SplitLinesAvoid(rest, nl);
    assert lines == rows + [EndOfData, AckLine];
    RenderMultiLines(key, rows, nl);
  }

  /** A matched reply always ends in "K" followed by the terminator. */
  lemma MatchedEndsWithAck(reply: string, key: string, nl: string)
    requires ValidTerminator(nl) && MatchBody(reply, key, nl).Some?
    ensures |reply| > |nl| && reply[|reply| - |nl| - 1] == 'K'
    ensures reply[|reply| - |nl|..] == nl
  {
    MatchBodySound(reply, key, nl);
    var p := match MatchBody(reply, key, nl).value
      case SingleLine(v) => "250-" + key + "=" + v + nl
      case MultiLine(rows) => "250+" + key + "=" + nl + JoinLines(rows, nl) + "." + nl;
    assert reply == p + AckLine + nl;
    assert reply[|p| + 5] == 'K';
  }

  /** A reply that matches exactly does not match once more '\n' is appended. */
  lemma ExtraNewlineNotBody(text: string, key: string, nl: string)
    requires ValidTerminator(nl) && MatchBody(text, key, nl).Some?
    ensures MatchBody(text + "\n", key, nl).None?
  {
    MatchedEndsWithAck(text, key, nl);
    if MatchBody(text + "\n", key, nl).Some? {
      MatchedEndsWithAck(text + "\n", key, nl);
      assert false;
    }
  }

  /** Soundness of the anchored match. */
  lemma MatchInfoSound(reply: string, key: string, nl: string)
    requires MatchInfo(reply, key, nl).Some?
    ensures WellFormed(MatchInfo(reply, key, nl).value, nl)
    ensures var text := Render(key, MatchInfo(reply, key, nl).value, nl);
      reply == text || reply == text + "\n"
  {
    if MatchBody(reply, key, nl).Some? {
      MatchBodySound(reply, key, nl);
    } else {
      var shorter := reply[..|reply| - 1];
      MatchBodySound(shorter, key, nl);
      assert reply == shorter + "\n";
    }
  }

  /** Completeness of the anchored match, with and without the extra '\n'. */
  lemma MatchInfoComplete(key: string, m: InfoReply, nl: string)
    requires ValidTerminator(nl) && WellFormed(m, nl)
    ensures MatchInfo(Render(key, m, nl), key, nl) == Some(m)
    ensures MatchInfo(Render(key, m, nl) + "\n", key, nl) == Some(m)
  {
    var text := Render(key, m, nl);
    MatchBodyComplete(key, m, nl);
    ExtraNewlineNotBody(text, key, nl);
    var longer := text + "\n";
    assert longer[..|longer| - 1] == text;
  }

  /** GETINFO succeeds exactly on the two shapes (optionally followed by one '\n').
      The witness is the shape the reply was matched as. */
  lemma ParseInfoAccepts(reply: string, key: string, nl: string)
    requires ValidTerminator(nl)
    ensures ParseInfo(reply, key, nl).Ok? <==>
      exists m :: WellFormed(m, nl) && (reply == Render(key, m, nl) || reply == Render(key, m, nl) + "\n")
  {
    if ParseInfo(reply, key, nl).Ok? {
      MatchInfoSound(reply, key, nl);
      var m := MatchInfo(reply, key, nl).value;
      assert WellFormed(m, nl) && (reply == Render(key, m, nl) || reply == Render(key, m, nl) + "\n");
    } else {
      forall m | WellFormed(m, nl)
        ensures reply != Render(key, m, nl) && reply != Render(key, m, nl) + "\n"
      {
        MatchInfoComplete(key, m, nl);
      }
    }
  }

  /** The single-line form yields no row for an empty value and one row otherwise. */
  lemma ParseInfoSingleLine(key: string, value: string, nl: string)
    requires ValidTerminator(nl) && Avoids(value, nl)
    ensures ParseInfo("250-" + key + "=" + value + nl + "250 OK" + nl, key, nl)
         == Ok(if value == "" then [] else [Split(value, ' ')])
  {
    var text := Render(key, SingleLine(value), nl);
    assert text == "250-" + key + "=" + value + nl + "250 OK" + nl;
    MatchInfoComplete(key, SingleLine(value), nl);
    assert ParseInfo(text, key, nl) == Ok(SplitRows(Captures(SingleLine(value))));
    if value == "" {
      assert SplitRows([]) == [];
    } else {
      assert SplitRows([value]) == [Split(value, ' ')];
    }
  }

  /** The multi-line form yields one row per line before the ".", in order. */
  lemma ParseInfoMultiLine(key: string, rows: seq<string>, nl: string)
    requires ValidTerminator(nl)
    requires forall i :: 0 <= i < |rows| ==> rows[i] != [] && Avoids(rows[i], nl)
    ensures var r := ParseInfo("250+" + key + "=" + nl + JoinLines(rows, nl) + "." + nl + "250 OK" + nl, key, nl);
      && r.Ok? && |r.value| == |rows|
      && forall i :: 0 <= i < |rows| ==> r.value[i] == Split(rows[i], ' ')
  {
    var text := Render(key, MultiLine(rows), nl);
    assert text == "250+" + key + "=" + nl + JoinLines(rows, nl) + "." + nl + "250 OK" + nl;
    MatchInfoComplete(key, MultiLine(rows), nl);
    assert ParseInfo(text, key, nl) == Ok(SplitRows(rows));
  }

  /** The fields of every accepted row hold neither terminator characters nor
      spaces, and joined with spaces they give back a line of the reply. */
  lemma ParseInfoFields(reply: string, key: string, nl: string)
    requires ValidTerminator(nl) && ParseInfo(reply, key, nl).Ok?
    ensures var rows := ParseInfo(reply, key, nl).value;
      forall i :: 0 <= i < |rows| ==>
        && |rows[i]| >= 1
        && Avoids(Join(rows[i], ' '), nl)
        && forall j :: 0 <= j < |rows[i]| ==> Avoids(rows[i][j], nl + " ")
  {
    MatchInfoSound(reply, key, nl);
    var m := MatchInfo(reply, key, nl).value;
    var caps := Captures(m);
    assert forall i :: 0 <= i < |caps| ==> Avoids(caps[i], nl);
    var rows := ParseInfo(reply, key, nl).value;
    forall i | 0 <= i < |rows|
      ensures Avoids(Join(rows[i], ' '), nl)
      ensures forall j :: 0 <= j < |rows[i]| ==> Avoids(rows[i][j], nl + " ")
    {
      JoinSplit(caps[i], ' ');
      SplitFieldsAvoid(caps[i], nl);
    }
  }

  /** Fields of a string free of the stop characters are free of them and of the space. */
  lemma {:induction false} SplitFieldsAvoid(s: string, stops: string)
    requires Avoids(s, stops)
    ensures forall j :: 0 <= j < |Split(s, ' ')| ==> Avoids(Split(s, ' ')[j], stops + " ")
    decreases |s|
  {
    var n := PrefixAvoiding(s, [' ']);
    var fields := Split(s, ' ');
    assert Avoids(s[..n], stops) by {
      forall i, j | 0 <= i < n && 0 <= j < |stops| ensures s[..n][i] != stops[j] {
        assert s[..n][i] == s[i];
      }
    }
    assert Avoids(s[..n], stops + " ") by {
      forall i, j | 0 <= i < n && 0 <= j < |stops + " "| ensures s[..n][i] != (stops + " ")[j] {
        if j == |stops| {
          assert s[..n][i] != [' '][0];
        }
      }
    }
    if n < |s| {
      var tail := s[n + 1..];
      assert Avoids(tail, stops) by {
        forall i, j | 0 <= i < |tail| && 0 <= j < |stops| ensures tail[i] != stops[j] {
          assert tail[i] == s[n + 1 + i];
        }
      }
      SplitFieldsAvoid(tail, stops);
      forall j | 0 <= j < |fields| ensures Avoids(fields[j], stops + " ") {
        if j > 0 {
          assert fields[j] == Split(tail, ' ')[j - 1];
        }
      }
    } else {
      assert s[..n] == s;
    }
  }

  /** A matched reply begins "250-" or "250+". */
  lemma MatchedHeader(reply: string, key: string, nl: string)
    requires MatchBody(reply, key, nl).Some?
    ensures |reply| > 3 && (reply[3] == '-' || reply[3] == '+')
  {
    if SingleHeader(key) <= reply {
      assert reply[3] == SingleHeader(key)[3];
    } else {
      assert MultiHeader(key, nl) <= reply;
      assert reply[3] == MultiHeader(key, nl)[3];
    }
  }

  /** No GETINFO reply is an acknowledgement. */
  lemma InfoReplyIsNotAck(command: string, reply: string, key: string, nl: string)
    requires MatchInfo(reply, key, nl).Some?
    ensures CheckAck(command, reply, nl).Fail?
  {
    if MatchBody(reply, key, nl).Some? {
      MatchedHeader(reply, key, nl);
    } else {
      var shorter := reply[..|reply| - 1];
      MatchedHeader(shorter, key, nl);
      assert reply[3] == shorter[3];
    }
    assert AckReply(nl)[3] == ' ';
  }
}
