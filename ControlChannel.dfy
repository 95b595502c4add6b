/** The client's dialogues with the Tor control port. Each dialogue opens its own
    connection, sends commands one at a time (each followed by the terminator)
    and reads one reply per command. The control port is an oracle that gives
    the reply to each command; `sent` records the commands in the order sent. */
module ControlChannel {
  import opened Errors
  import opened Text
  import opened ControlProtocol

  /** One open Tor stream as listed by GETINFO stream-status. */
  datatype Stream = Stream(StreamID: string, StreamStatus: string, CircuitID: string, Target: string)

  /** The reply the control port gives to each command. */
  type ControlReplies = string -> string

  /** How a dialogue ended and which commands it sent, in order. */
  datatype Exchange = Exchange(outcome: Outcome, sent: seq<string>)

  /** Commands `done` sent before the dialogue `e`. */
  function Then(done: seq<string>, e: Exchange): Exchange {
    Exchange(e.outcome, done + e.sent)
  }

  /** Sends one command and requires the acknowledgement. */
  function SendCommand(control: ControlReplies, command: string, nl: string): Outcome {
    CheckAck(command, control(command), nl)
  }

  /** The control port acknowledges the command: its reply is exactly 250 OK. */
  predicate Acked(control: ControlReplies, command: string, nl: string) {
    control(command) == AckReply(nl)
  }

  /** The error for a stream-status row with fewer than four fields. */
  function WrongStreamStatus(row: seq<string>): ProxyError {
    ProxyException("Wrong TOR stream status string: " + Join(row, ' '))
  }

  function StreamOf(row: seq<string>): Stream
    requires |row| >= 4
  {
    Stream(row[0], row[1], row[2], row[3])
  }

  /** Streams `done` extracted before the result `r`. */
  function PrependStreams(done: seq<Stream>, r: Result<seq<Stream>>): Result<seq<Stream>> {
    match r
    case Ok(ss) => Ok(done + ss)
    case Err(e) => Err(e)
  }

  /** The stream records of the rows of a stream-status reply, in row order;
      fails on the first row with fewer than four fields. */
  function StreamsFromRows(rows: seq<seq<string>>): Result<seq<Stream>>
    decreases |rows|
  {
    if rows == [] then Ok([])
    else if |rows[0]| < 4 then Err(WrongStreamStatus(rows[0]))
    else PrependStreams([StreamOf(rows[0])], StreamsFromRows(rows[1..]))
  }

  /** Extraction succeeds exactly when every row has at least four fields, and then
      gives one record per row, made of the row's first four fields. */
  lemma {:induction false} StreamsFromRowsOk(rows: seq<seq<string>>)
    ensures var r := StreamsFromRows(rows);
      && (r.Ok? <==> forall i :: 0 <= i < |rows| ==> |rows[i]| >= 4)
      && (r.Ok? ==>
            && |r.value| == |rows|
            && forall i :: 0 <= i < |rows| ==> r.value[i] == Stream(rows[i][0], rows[i][1], rows[i][2], rows[i][3]))
    decreases |rows|
  {
    if rows != [] && |rows[0]| >= 4 {
      var tail := rows[1..];
      StreamsFromRowsOk(tail);
      var t := StreamsFromRows(tail);
      assert forall i :: 1 <= i < |rows| ==> rows[i] == tail[i - 1];
      if t.Ok? {
        assert StreamsFromRows(rows).value == [StreamOf(rows[0])] + t.value;
      }
    }
  }

  /** A failed extraction names the first row with fewer than four fields. */
  lemma {:induction false} StreamsFromRowsErr(rows: seq<seq<string>>)
    ensures var r := StreamsFromRows(rows);
      r.Err? ==>
        exists i :: (&& 0 <= i < |rows| && |rows[i]| < 4
                     && (forall j :: 0 <= j < i ==> |rows[j]| >= 4)
                     && r.error == WrongStreamStatus(rows[i]))
    decreases |rows|
  {
    if rows != [] && |rows[0]| >= 4 {
      var tail := rows[1..];
      StreamsFromRowsErr(tail);
      var t := StreamsFromRows(tail);
      if t.Err? {
        var i :| (&& 0 <= i < |tail| && |tail[i]| < 4
                  && (forall j :: 0 <= j < i ==> |tail[j]| >= 4)
                  && t.error == WrongStreamStatus(tail[i]));
        assert forall j :: 1 <= j <= i + 1 ==> rows[j] == tail[j - 1];
      }
    }
  }

  /** The streams the control port lists, or the error of the GETINFO reply or of its rows. */
  function ReadStreams(control: ControlReplies, nl: string): Result<seq<Stream>> {
    match ParseInfo(control(GetInfoCommand(StreamStatusKey)), StreamStatusKey, nl)
    case Err(e) => Err(e)
    case Ok(rows) => StreamsFromRows(rows)
  }

  /** GETINFO <key>: sends the command, matches the reply, and splits each captured row. */
  method GetInfo(control: ControlReplies, key: string, nl: string) returns (r: Result<seq<seq<string>>>)
    ensures r == ParseInfo(control(GetInfoCommand(key)), key, nl)
  {
    var response := control(GetInfoCommand(key));
    var m := MatchInfo(response, key, nl);
    if m.None? {
      return Err(ProxyException(Responded(response, GetInfoCommand(key))));
    }
    var captures := Captures(m.value);
    var result: seq<seq<string>> := [];
    for i := 0 to |captures|
      invariant |result| == i
      invariant forall j :: 0 <= j < i ==> result[j] == Split(captures[j], ' ')
    {
      result := result + [Split(captures[i], ' ')];
    }
    assert result == SplitRows(captures);
    return Ok(result);
  }

  /** GETINFO stream-status, then one record per row. */
  method GetStreams(control: ControlReplies, nl: string) returns (r: Result<seq<Stream>>)
    ensures r == ReadStreams(control, nl)
  {
    var info := GetInfo(control, StreamStatusKey, nl);
    if info.Err? {
      return Err(info.error);
    }
    var rows := info.value;
    var result: seq<Stream> := [];
    assert rows[0..] == rows;
    PrependNothing(StreamsFromRows(rows));
    for i := 0 to |rows|
      invariant PrependStreams(result, StreamsFromRows(rows[i..])) == StreamsFromRows(rows)
    {
      var row := rows[i];
      assert rows[i..][1..] == rows[i + 1..];
      if |row| < 4 {
        return Err(WrongStreamStatus(row));
      }
      assert result + ([StreamOf(row)] + []) == result + [StreamOf(row)];
      PrependTwice(result, [StreamOf(row)], StreamsFromRows(rows[i + 1..]));
      result := result + [StreamOf(row)];
    }
    assert rows[|rows|..] == [];
    assert result + [] == result;
    return Ok(result);
  }

  lemma PrependNothing(r: Result<seq<Stream>>)
    ensures PrependStreams([], r) == r
  {
    if r.Ok? {
      assert [] + r.value == r.value;
    }
  }

  lemma PrependTwice(a: seq<Stream>, b: seq<Stream>, r: Result<seq<Stream>>)
    ensures PrependStreams(a, PrependStreams(b, r)) == PrependStreams(a + b, r)
  {
    if r.Ok? {
      assert a + (b + r.value) == a + b + r.value;
    }
  }

  /** SendNewNymCommand: AUTHENTICATE "<password>", then SIGNAL NEWNYM on the same
      connection; the first reply that is not an acknowledgement ends the dialogue. */
  function SendNewNymCommand(control: ControlReplies, password: string, nl: string): (r: Exchange)
    ensures |r.sent| >= 1 && r.sent[0] == AuthenticateCommand(password)
    ensures |r.sent| == (if Acked(control, AuthenticateCommand(password), nl) then 2 else 1)
    ensures |r.sent| == 2 ==> r.sent[1] == SignalNewNym
    ensures r.outcome.Pass? <==> forall i :: 0 <= i < |r.sent| ==> Acked(control, r.sent[i], nl)
    ensures r.outcome.Fail? ==> r.outcome == SendCommand(control, r.sent[|r.sent| - 1], nl)
  {
    var auth := AuthenticateCommand(password);
    match SendCommand(control, auth, nl)
    case Fail(e) => Exchange(Fail(e), [auth])
    case Pass => Exchange(SendCommand(control, SignalNewNym, nl), [auth, SignalNewNym])
  }

  /** The CLOSESTREAM <id> 1 commands for the given streams, in order. */
  function CloseCommands(streams: seq<Stream>): (r: seq<string>)
    ensures |r| == |streams|
  {
    seq(|streams|, i requires 0 <= i < |streams| => CloseStreamCommand(streams[i].StreamID))
  }

  /** The loop of CloseStreams: CLOSESTREAM <id> 1 for each stream in order,
      stopping at the first reply that is not an acknowledgement. */
  function CloseEach(control: ControlReplies, streams: seq<Stream>, nl: string): Exchange
    decreases |streams|
  {
    if streams == [] then Exchange(Pass, [])
    else
      var command := CloseStreamCommand(streams[0].StreamID);
      match SendCommand(control, command, nl)
      case Fail(e) => Exchange(Fail(e), [command])
      case Pass => Then([command], CloseEach(control, streams[1..], nl))
  }

  /** CloseEach sends a prefix of the CLOSESTREAM commands of the streams, in order. */
  lemma {:induction false} CloseEachSent(control: ControlReplies, streams: seq<Stream>, nl: string)
    ensures var r := CloseEach(control, streams, nl);
      && |r.sent| <= |streams|
      && forall i :: 0 <= i < |r.sent| ==> r.sent[i] == CloseStreamCommand(streams[i].StreamID)
    decreases |streams|
  {
    if streams != [] {
      var command := CloseStreamCommand(streams[0].StreamID);
      if SendCommand(control, command, nl).Pass? {
        var tail := streams[1..];
        CloseEachSent(control, tail, nl);
        var t := CloseEach(control, tail, nl);
        assert CloseEach(control, streams, nl).sent == [command] + t.sent;
      }
    }
  }

  /** Every command CloseEach sent but the last was acknowledged, and when it fails
      it fails with the reply to the last one sent. */
  lemma {:induction false} CloseEachStops(control: ControlReplies, streams: seq<Stream>, nl: string)
    ensures var r := CloseEach(control, streams, nl);
      && (forall i :: 0 <= i < |r.sent| - 1 ==> Acked(control, r.sent[i], nl))
      && (r.outcome.Fail? ==> |r.sent| > 0 && r.outcome == SendCommand(control, r.sent[|r.sent| - 1], nl))
    decreases |streams|
  {
    if streams != [] {
      var command := CloseStreamCommand(streams[0].StreamID);
      var r := CloseEach(control, streams, nl);
      if SendCommand(control, command, nl).Pass? {
        var tail := streams[1..];
        CloseEachStops(control, tail, nl);
        var t := CloseEach(control, tail, nl);
        assert r == Exchange(t.outcome, [command] + t.sent);
        assert Acked(control, command, nl);
        assert forall i :: 1 <= i < |r.sent| ==> r.sent[i] == t.sent[i - 1];
      }
    }
  }

  /** CloseEach succeeds exactly when it sent one command per stream and every one
      of them was acknowledged. */
  lemma {:induction false} CloseEachPasses(control: ControlReplies, streams: seq<Stream>, nl: string)
    ensures var r := CloseEach(control, streams, nl);
      r.outcome.Pass? <==>
        |r.sent| == |streams| && forall i :: 0 <= i < |r.sent| ==> Acked(control, r.sent[i], nl)
    decreases |streams|
  {
    if streams != [] {
      var command := CloseStreamCommand(streams[0].StreamID);
      var r := CloseEach(control, streams, nl);
      if SendCommand(control, command, nl).Pass? {
        var tail := streams[1..];
        CloseEachPasses(control, tail, nl);
        var t := CloseEach(control, tail, nl);
        assert r == Exchange(t.outcome, [command] + t.sent);
        assert Acked(control, command, nl);
        assert forall i :: 1 <= i < |r.sent| ==> r.sent[i] == t.sent[i - 1];
        if t.outcome.Fail? && |t.sent| == |tail| {
          CloseEachStops(control, tail, nl);
          assert !Acked(control, r.sent[|r.sent| - 1], nl);
        }
      } else {
        assert r.sent == [command];
        assert !Acked(control, r.sent[0], nl);
      }
    }
  }

  /** The whole CloseStreams dialogue: authenticate, list the streams, close each. */
  function CloseStreamsDialogue(control: ControlReplies, password: string, nl: string): Exchange {
    var auth := AuthenticateCommand(password);
    match SendCommand(control, auth, nl)
    case Fail(e) => Exchange(Fail(e), [auth])
    case Pass =>
      var list := [auth, GetInfoCommand(StreamStatusKey)];
      match ReadStreams(control, nl)
      case Err(e) => Exchange(Fail(e), list)
      case Ok(streams) => Then(list, CloseEach(control, streams, nl))
  }

  /** CloseStreams: authenticates, reads the open streams and closes each of them. */
  method CloseStreams(control: ControlReplies, password: string, nl: string) returns (r: Exchange)
    ensures r == CloseStreamsDialogue(control, password, nl)
  {
    var auth := AuthenticateCommand(password);
    var ack := SendCommand(control, auth, nl);
    if ack.Fail? {
      return Exchange(ack, [auth]);
    }
    var streams := GetStreams(control, nl);
    var sent := [auth, GetInfoCommand(StreamStatusKey)];
    if streams.Err? {
      return Exchange(Fail(streams.error), sent);
    }
    var ss := streams.value;
    for i := 0 to |ss|
      invariant Then(sent, CloseEach(control, ss[i..], nl)) == CloseStreamsDialogue(control, password, nl)
    {
      var command := CloseStreamCommand(ss[i].StreamID);
      assert ss[i..][1..] == ss[i + 1..];
      ack := SendCommand(control, command, nl);
      ghost var later := CloseEach(control, ss[i + 1..], nl);
      assert ack.Pass? ==> sent + ([command] + later.sent) == sent + [command] + later.sent;
      sent := sent + [command];
      if ack.Fail? {
        return Exchange(ack, sent);
      }
    }
    assert ss[|ss|..] == [];
    assert sent + [] == sent;
    return Exchange(Pass, sent);
  }

  /** The control part of a rotation: SendNewNymCommand, then CloseStreams on a new connection. */
  function RotationDialogue(control: ControlReplies, password: string, nl: string): Exchange {
    var nym := SendNewNymCommand(control, password, nl);
    if nym.outcome.Fail? then nym
    else Then(nym.sent, CloseStreamsDialogue(control, password, nl))
  }

  /** CloseEach succeeds exactly when every stream's CLOSESTREAM is acknowledged,
      and then it has sent one CLOSESTREAM per stream, in order. */
  lemma CloseEachAll(control: ControlReplies, streams: seq<Stream>, nl: string)
    ensures var c := CloseEach(control, streams, nl);
      c.outcome.Pass? <==>
        forall s :: s in streams ==> Acked(control, CloseStreamCommand(s.StreamID), nl)
    ensures CloseEach(control, streams, nl).outcome.Pass? ==>
      CloseEach(control, streams, nl).sent == CloseCommands(streams)
  {
    CloseEachSent(control, streams, nl);
    CloseEachPasses(control, streams, nl);
    CloseEachStops(control, streams, nl);
    var c := CloseEach(control, streams, nl);
    if c.outcome.Pass? {
      assert c.sent == CloseCommands(streams);
      forall s | s in streams ensures Acked(control, CloseStreamCommand(s.StreamID), nl) {
        var k :| 0 <= k < |streams| && streams[k] == s;
        assert c.sent[k] == CloseStreamCommand(s.StreamID);
      }
    } else {
      var k := |c.sent| - 1;
      assert c.sent[k] == CloseStreamCommand(streams[k].StreamID);
      assert streams[k] in streams;
    }
  }

  /** A rotation's control dialogue succeeds exactly when every command is acknowledged
      and the stream list is well formed; it then sends AUTHENTICATE, SIGNAL NEWNYM,
      AUTHENTICATE, GETINFO stream-status and one CLOSESTREAM per listed stream. */
  lemma RotationCommandOrder(control: ControlReplies, password: string, nl: string)
    ensures var d := RotationDialogue(control, password, nl);
      var auth := AuthenticateCommand(password);
      d.outcome.Pass? <==>
        && Acked(control, auth, nl)
        && Acked(control, SignalNewNym, nl)
        && ReadStreams(control, nl).Ok?
        && forall s :: s in ReadStreams(control, nl).value ==>
             Acked(control, CloseStreamCommand(s.StreamID), nl)
    ensures var d := RotationDialogue(control, password, nl);
      var auth := AuthenticateCommand(password);
      d.outcome.Pass? ==>
        d.sent == [auth, SignalNewNym, auth, GetInfoCommand(StreamStatusKey)]
                  + CloseCommands(ReadStreams(control, nl).value)
  {
    if SendNewNymCommand(control, password, nl).outcome.Pass? && ReadStreams(control, nl).Ok? {
      CloseEachAll(control, ReadStreams(control, nl).value, nl);
      RotationSent(control, password, nl);
    }
  }

  /** The commands of a rotation whose first connection and stream list succeed. */
  lemma RotationSent(control: ControlReplies, password: string, nl: string)
    requires SendNewNymCommand(control, password, nl).outcome.Pass?
    requires ReadStreams(control, nl).Ok?
    ensures var auth := AuthenticateCommand(password);
      RotationDialogue(control, password, nl).sent
        == [auth, SignalNewNym] + ([auth, GetInfoCommand(StreamStatusKey)]
           + CloseEach(control, ReadStreams(control, nl).value, nl).sent)
  {
    var auth := AuthenticateCommand(password);
    assert SendNewNymCommand(control, password, nl).sent == [auth, SignalNewNym];
  }
}
