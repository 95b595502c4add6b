/** The Tor proxy client: its configuration, the exit-node counter and the
    rotation of the exit node. The HTTP IP-echo call that reports the current
    exit address (GetCurrentExitNodeAsync) is an oracle `probe`: probe(0) is the
    address it returns before the rotation and probe(k) the one it returns on
    the k-th poll. */
module SwitchableProxy {
  import opened Errors
  import opened ControlProtocol
  import opened ControlChannel

  /** The configuration keys the client reads; None for a key that is absent. */
  datatype Configuration = Configuration(
    Enable: Option<bool>,
    Address: Option<string>,
    Port: Option<int>,
    ControlPort: Option<int>,
    ControlPassword: Option<string>,
    CircuitBiuldTimeoutSeconds: Option<real>)

  const EmptyConfiguration := Configuration(None, None, None, None, None, None)

  /** The settings the client runs with. */
  datatype Settings = Settings(
    disabled: bool,
    address: string,
    port: int,
    controlPort: int,
    controlPassword: string,
    circuitBuildTimeoutSeconds: real)

  /** Each key's value, or its default when absent. */
  function Resolve(c: Configuration): Settings {
    Settings(
      !c.Enable.GetOr(true),
      c.Address.GetOr("127.0.0.1"),
      c.Port.GetOr(9050),
      c.ControlPort.GetOr(9051),
      c.ControlPassword.GetOr(""),
      c.CircuitBiuldTimeoutSeconds.GetOr(60.0))
  }

  /** A configuration that sets every key is read back verbatim. */
  lemma ConfiguredSettings(c: Configuration)
    requires c.Enable.Some? && c.Address.Some? && c.Port.Some? && c.ControlPort.Some?
    requires c.ControlPassword.Some? && c.CircuitBiuldTimeoutSeconds.Some?
    ensures Resolve(c) == Settings(!c.Enable.value, c.Address.value, c.Port.value,
                                   c.ControlPort.value, c.ControlPassword.value,
                                   c.CircuitBiuldTimeoutSeconds.value)
  {
  }

  /** The number of iterations of `for (i = 0; i < timeout; i++)`: the count of
      naturals below the timeout. */
  function PollBound(timeout: real): (n: nat)
    ensures timeout <= n as real
    ensures n > 0 ==> ((n - 1) as real) < timeout
  {
    if timeout <= 0.0 then 0 else -((-timeout).Floor)
  }

  /** i is below the timeout exactly when the poll loop runs an i-th iteration. */
  lemma PollBoundCounts(timeout: real, i: nat)
    ensures i < PollBound(timeout) <==> (i as real) < timeout
  {
    var n := PollBound(timeout);
    if i < n {
      assert (i as real) <= ((n - 1) as real);
    }
  }

  /** 60 iterations for the default 60 s, 21 for 20.5 s. */
  lemma PollBoundExamples()
    ensures PollBound(60.0) == 60
    ensures PollBound(20.5) == 21
  {
    var a := PollBound(60.0);
    assert 59 < a <= 60;
    var b := PollBound(20.5);
    assert 20 < b <= 21;
  }

  /** The first n polls all saw the address seen before the rotation. */
  predicate Unchanged(probe: nat -> string, n: nat) {
    forall k :: 1 <= k <= n ==> probe(k) == probe(0)
  }

  /** Poll k, one of the first `bound`, is the first to see a new address. */
  predicate ChangedAt(probe: nat -> string, k: int, bound: nat) {
    1 <= k <= bound && probe(k) != probe(0) && Unchanged(probe, k - 1)
  }

  /** Some poll among the first n sees a new address exactly when one of them is
      the first to. */
  lemma {:induction false} FirstChange(probe: nat -> string, n: nat)
    ensures !Unchanged(probe, n) <==> exists k :: ChangedAt(probe, k, n)
    decreases n
  {
    if n > 0 {
      FirstChange(probe, n - 1);
      if !Unchanged(probe, n - 1) {
        var k :| ChangedAt(probe, k, n - 1);
        assert ChangedAt(probe, k, n);
      } else if probe(n) != probe(0) {
        assert ChangedAt(probe, n, n);
      } else {
        assert Unchanged(probe, n);
      }
    }
  }

  /** At most one poll is the first to see a new address. */
  lemma ChangedAtUnique(probe: nat -> string, j: int, k: int, n: nat)
    requires ChangedAt(probe, j, n) && ChangedAt(probe, k, n)
    ensures j == k
  {
  }

  /** The polling loop of ChangeExitNodeAsync: once per second while fewer seconds
      than the timeout have passed, ask for the exit address, and stop at the first
      poll that sees an address other than probe(0). */
  method PollExitNode(probe: nat -> string, timeout: real) returns (changed: bool, polls: nat)
    ensures changed ==> ChangedAt(probe, polls, PollBound(timeout))
    ensures !changed ==> polls == PollBound(timeout) && Unchanged(probe, polls)
  {
    var exitNode := probe(0);  // read before the rotation
    ghost var bound := PollBound(timeout);
    var i := 0;
    while (i as real) < timeout
      invariant 0 <= i <= bound
      invariant Unchanged(probe, i)
      decreases bound - i
    {
      PollBoundCounts(timeout, i);
      var newExitNode := probe(i + 1);
      if exitNode != newExitNode {
        return true, i + 1;
      }
      i := i + 1;
    }
    PollBoundCounts(timeout, i);
    return false, i;
  }

  const ChangeFailed := ProxyException("Failed to change the exit node")

  class TorProxy {
    const Disabled: bool
    const Address: string
    const Port: int
    const ControlPort: int
    const ControlPassword: string
    const CircuitBiuldTimeoutSeconds: real
    /** The line terminator of the control protocol (Environment.NewLine). */
    const NewLine: string
    /** How many rotations have succeeded. */
    var ExitNodesChanged: nat

    constructor (configuration: Configuration, newLine: string)
      ensures Current() == Resolve(configuration)
      ensures NewLine == newLine
      ensures ExitNodesChanged == 0
    {
      var s := Resolve(configuration);
      Disabled := s.disabled;
      Address := s.address;
      Port := s.port;
      ControlPort := s.controlPort;
      ControlPassword := s.controlPassword;
      CircuitBiuldTimeoutSeconds := s.circuitBuildTimeoutSeconds;
      NewLine := newLine;
      ExitNodesChanged := 0;
    }

    /** The settings this proxy was built with. */
    function Current(): Settings {
      Settings(Disabled, Address, Port, ControlPort, ControlPassword, CircuitBiuldTimeoutSeconds)
    }

    /** How many identities have been used, the first one included; none while disabled. */
    function ProxiesUsed(): (n: int)
      reads this
      ensures n >= 0
      ensures n == 0 <==> Disabled
      ensures !Disabled ==> n - 1 == ExitNodesChanged
    {
      if Disabled then 0 else ExitNodesChanged + 1
    }

    /** ChangeExitNodeAsync. Returns how it ended, the control commands it sent and
        how many times it asked for the exit address. */
    method ChangeExitNode(control: ControlReplies, probe: nat -> string)
      returns (outcome: Outcome, sent: seq<string>, probes: nat)
      modifies this
      ensures Disabled ==> outcome == Pass && sent == [] && probes == 0
      ensures !Disabled ==> sent == RotationDialogue(control, ControlPassword, NewLine).sent
      ensures !Disabled && RotationDialogue(control, ControlPassword, NewLine).outcome.Fail? ==>
        outcome == RotationDialogue(control, ControlPassword, NewLine).outcome && probes == 1
      ensures !Disabled && RotationDialogue(control, ControlPassword, NewLine).outcome.Pass? ==>
        (outcome.Pass? ==> ChangedAt(probe, probes - 1, PollBound(CircuitBiuldTimeoutSeconds))) &&
        (outcome.Fail? ==> outcome == Fail(ChangeFailed) && probes == PollBound(CircuitBiuldTimeoutSeconds) + 1 &&
                           Unchanged(probe, PollBound(CircuitBiuldTimeoutSeconds)))
      ensures ExitNodesChanged == old(ExitNodesChanged) + (if outcome.Pass? && !Disabled then 1 else 0)
      ensures ProxiesUsed() >= old(ProxiesUsed())
      ensures Disabled ==> ProxiesUsed() == 0
    {
      if Disabled {
        return Pass, [], 0;
      }
      probes := 1;
      var nym := SendNewNymCommand(control, ControlPassword, NewLine);
      sent := nym.sent;
      if nym.outcome.Fail? {
        return nym.outcome, sent, probes;
      }
      var close := CloseStreams(control, ControlPassword, NewLine);
      sent := sent + close.sent;
      if close.outcome.Fail? {
        return close.outcome, sent, probes;
      }
      var changed, polls := PollExitNode(probe, CircuitBiuldTimeoutSeconds);
      probes := polls + 1;
      if changed {
        ExitNodesChanged := ExitNodesChanged + 1;
        return Pass, sent, probes;
      }
      return Fail(ChangeFailed), sent, probes;
    }
  }

  /** A proxy built from an enabled configuration counts one proxy, and one more
      per rotation that finds a new exit address. */
  method CountsUsedProxies(configuration: Configuration, newLine: string, control: ControlReplies,
                           first: nat -> string, second: nat -> string)
      returns (used: seq<int>)
    requires !Resolve(configuration).disabled
    requires RotationDialogue(control, Resolve(configuration).controlPassword, newLine).outcome.Pass?
    requires !Unchanged(first, PollBound(Resolve(configuration).circuitBuildTimeoutSeconds))
    requires !Unchanged(second, PollBound(Resolve(configuration).circuitBuildTimeoutSeconds))
    ensures used == [1, 2, 3]
  {
    var proxy := new TorProxy(configuration, newLine);
    assert !proxy.Disabled;
    used := [proxy.ProxiesUsed()];
    var outcome, sent, probes := proxy.ChangeExitNode(control, first);
    assert outcome.Pass?;
    used := used + [proxy.ProxiesUsed()];
    outcome, sent, probes := proxy.ChangeExitNode(control, second);
    assert outcome.Pass?;
    used := used + [proxy.ProxiesUsed()];
  }

  /** A disabled proxy counts no proxy, before a rotation and after it. */
  method DisabledCountsNothing(configuration: Configuration, newLine: string, control: ControlReplies,
                               probe: nat -> string)
      returns (used: seq<int>)
    requires Resolve(configuration).disabled
    ensures used == [0, 0]
  {
    var proxy := new TorProxy(configuration, newLine);
    used := [proxy.ProxiesUsed()];
    var outcome, sent, probes := proxy.ChangeExitNode(control, probe);
    used := used + [proxy.ProxiesUsed()];
  }

  /** The settings of the two configuration files of the unit tests. */
  lemma TestConfigurations()
    ensures Resolve(EmptyConfiguration) == Settings(false, "127.0.0.1", 9050, 9051, "", 60.0)
    ensures Resolve(Configuration(Some(false), Some("127.0.0.100"), Some(19050), Some(19051),
                                  Some("111"), Some(20.5)))
         == Settings(true, "127.0.0.100", 19050, 19051, "111", 20.5)
  {
  }
}
