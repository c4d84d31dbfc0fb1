// Recovery of a Home client across node switches and lifetimes (internal/home/client.go), each method
// atomic. A pool is represented by the address it connects to.
module HomeRecovery {
  import opened Bytes

  datatype Recovery = Stable | TakeoverEligible | Switching | SwitchingTakeover

  datatype Node = Node(ip: Bytes, port: int)

  datatype Address = Address(host: Bytes, port: int)

  const FAILOVER_THRESHOLD: nat := 3

  datatype Client = Client(
    host: Bytes, port: int, enabled: bool, discovery: bool, seedHost: Bytes, seedPort: int,
    cmd: Option<Address>, sub: Option<Address>, release: Option<Address>,
    heartbeat: bool, fenced: bool, ambiguous: bool, recovery: Recovery,
    legacy: bool, nodes: seq<Node>, failures: nat, revision: int)

  function Fresh(host: Bytes, port: int, enabled: bool, discovery: bool): Client {
    Client(host, port, enabled, discovery, Trim(host), port, None, None, None, false, false, false, Stable, false,
           [], 0, 0)
  }

  // ----- the recovery state is a pair of bits

  predicate IsSwitching(r: Recovery) {
    r.Switching? || r.SwitchingTakeover?
  }

  predicate MayTakeOver(r: Recovery) {
    r.TakeoverEligible? || r.SwitchingTakeover?
  }

  function WithBits(switching: bool, takeover: bool): (r: Recovery)
    ensures IsSwitching(r) == switching && MayTakeOver(r) == takeover
  {
    if switching then (if takeover then SwitchingTakeover else Switching)
    else (if takeover then TakeoverEligible else Stable)
  }

  // ----- addresses

  function AddressOf(c: Client): Address {
    Address(Trim(c.host), c.port)
  }

  predicate Reachable(a: Address) {
    a.host != [] && a.port > 0
  }

  /** What switchToNodeLocked does: nothing when the node is invalid or already the target. */
  predicate Switches(c: Client, node: Node) {
    Trim(node.ip) != [] && node.port > 0 && AddressOf(c) != Address(Trim(node.ip), node.port)
  }

  function Switched(c: Client, node: Node): Client {
    if Switches(c, node) then
      c.(host := Trim(node.ip), port := node.port, cmd := None, sub := None, release := None,
         recovery := WithBits(true, MayTakeOver(c.recovery)))
    else c
  }

  function Candidates(c: Client): seq<Node> {
    c.nodes + if Trim(c.seedHost) != [] && c.seedPort > 0 then [Node(c.seedHost, c.seedPort)] else []
  }

  /** The first candidate that is a different node. */
  function Failover(c: Client, candidates: seq<Node>): Client {
    if candidates == [] then c
    else if Switches(c, candidates[0]) then Switched(c, candidates[0])
    else Failover(c, candidates[1..])
  }

  function AfterFailure(c: Client): Client {
    if !c.discovery then c.(failures := 0)
    else if c.failures + 1 < FAILOVER_THRESHOLD then c.(failures := c.failures + 1)
    else Failover(c.(failures := 0), Candidates(c))
  }

  function AfterTimeout(c: Client): Client {
    if c.discovery then Failover(c.(failures := 0), Candidates(c)) else c.(failures := 0)
  }

  function Refreshed(c: Client, nodes: seq<Node>): Client {
    if c.discovery && nodes != [] then Switched(c.(nodes := nodes, failures := 0), nodes[0]) else c
  }

  // ----- pools

  predicate CanConnect(c: Client) {
    !c.fenced && c.enabled && Reachable(AddressOf(c))
  }

  function Connected(c: Client): (r: Client)
    ensures r == c.(cmd := r.cmd, sub := r.sub)
  {
    if !CanConnect(c) then c
    else c.(cmd := Some(if c.cmd.Some? then c.cmd.value else AddressOf(c)),
            sub := Some(if c.sub.Some? then c.sub.value else AddressOf(c)))
  }

  /** The probe pings through a new command pool; only success clears the recovery state. */
  predicate ProbeSucceeds(c: Client, answered: bool) {
    CanConnect(c) && answered
  }

  /** The ping drops the command pool and connects a new one. */
  function Pinged(c: Client): Client {
    Connected(c.(cmd := None))
  }

  function Settled(c: Client): Client {
    c.(recovery := Stable)
  }

  function Probed(c: Client, answered: bool): Client {
    if ProbeSucceeds(c, answered) then Settled(Pinged(c)) else Pinged(c)
  }

  predicate GivesRelease(c: Client) {
    CanConnect(c) && c.recovery == Stable
  }

  function WithRelease(c: Client): (r: Client)
    ensures r == c.(release := r.release)
  {
    if GivesRelease(c) && c.release == None then c.(release := Some(AddressOf(c))) else c
  }

  function Fenced(c: Client): Client {
    c.(fenced := true, heartbeat := false, cmd := None, sub := None, release := None)
  }

  function NextLifetime(c: Client): Client {
    Client(c.host, c.port, c.enabled, c.discovery, c.seedHost, c.seedPort, None, None, None,
           false, false, false, c.recovery, c.legacy, c.nodes, c.failures, 0)
  }

  function TakeoverMarked(c: Client): Client {
    c.(recovery := WithBits(IsSwitching(c.recovery), true))
  }

  function TakeoverSuppressed(c: Client): Client {
    c.(recovery := WithBits(IsSwitching(c.recovery), false))
  }

  function Aborted(c: Client): Client {
    Fenced(c).(ambiguous := true)
  }

  function BootstrapClosed(c: Client): Client {
    c.(heartbeat := false, cmd := None, sub := None)
  }

  predicate SendsTakeover(c: Client) {
    c.revision > 0 && !c.legacy && MayTakeOver(c.recovery)
  }

  // ----- runs over any number of lifetimes

  datatype Event =
    | Refresh(nodes: seq<Node>) | Failure | Timeout | Restored | Discovered(nodes: seq<Node>)
    | MarkTakeover | SuppressTakeover | Legacy
    | Connect | Probe(answered: bool) | TakeRelease | Live
    | Close | CloseBootstrap | Abort | NewLifetime | Lifecycle(revision: int)

  function Step(c: Client, e: Event): Client {
    match e
    case Refresh(nodes) => Refreshed(c, nodes)
    case Failure => AfterFailure(c)
    case Timeout => AfterTimeout(c)
    case Restored => c.(failures := 0)
    case Discovered(nodes) => if c.discovery then c.(nodes := nodes) else c
    case MarkTakeover => TakeoverMarked(c)
    case SuppressTakeover => TakeoverSuppressed(c)
    case Legacy => TakeoverSuppressed(c.(legacy := true))
    case Connect => Connected(c)
    case Probe(answered) => Probed(c, answered)
    case TakeRelease => WithRelease(c)
    case Live => c.(heartbeat := true)
    case Close => Fenced(c)
    case CloseBootstrap => BootstrapClosed(c)
    case Abort => Aborted(c)
    case NewLifetime => NextLifetime(c)
    case Lifecycle(revision) => c.(revision := revision)
  }

  function Run(c: Client, events: seq<Event>): Client {
    if events == [] then c else Step(Run(c, events[..|events| - 1]), events[|events| - 1])
  }

  /** The target address has changed and no command probe has succeeded since. */
  predicate Unprobed(c: Client, events: seq<Event>) {
    if events == [] then false
    else
      var before, e := Run(c, events[..|events| - 1]), events[|events| - 1];
      if e.Probe? && ProbeSucceeds(before, e.answered) then false
      else AddressOf(Step(before, e)) != AddressOf(before) || Unprobed(c, events[..|events| - 1])
  }

  /** Every pool belongs to the current address, and a fenced client has none. */
  predicate PoolsCurrent(c: Client) {
    && (c.cmd.Some? ==> c.cmd.value == AddressOf(c))
    && (c.sub.Some? ==> c.sub.value == AddressOf(c))
    && (c.release.Some? ==> c.release.value == AddressOf(c) && Reachable(AddressOf(c)))
    && (c.fenced ==> c.cmd == None && c.sub == None && c.release == None)
    && (IsSwitching(c.recovery) ==> c.release == None)
  }

  /** A switch changes the address; the new target is the node's. */
  lemma SwitchedAddress(c: Client, node: Node)
    ensures Switches(c, node) ==>
              AddressOf(Switched(c, node)) == Address(Trim(node.ip), node.port) &&
              AddressOf(Switched(c, node)) != AddressOf(c)
  {
    TrimTwice(node.ip);
    hide Trim;
  }

  lemma SwitchedDiffers(c: Client, node: Node)
    ensures Switches(c, node) ==> Switched(c, node) != c
  {
    SwitchedAddress(c, node);
    hide Trim, Switched, Switches;
  }

  lemma {:induction false} FailoverSwitches(c: Client, candidates: seq<Node>)
    ensures Failover(c, candidates) != c ==>
              exists n :: n in candidates && Switches(c, n) && Failover(c, candidates) == Switched(c, n)
    ensures Failover(c, candidates) == c <==> forall n :: n in candidates ==> !Switches(c, n)
  {
    hide Switches, Switched;
    if candidates != [] {
      FailoverSwitches(c, candidates[1..]);
      SwitchedDiffers(c, candidates[0]);
      assert candidates == [candidates[0]] + candidates[1..];
    }
  }

  /** The first candidate that is a different valid node. */
  lemma {:induction false} FailoverToFirst(c: Client, candidates: seq<Node>, i: nat)
    requires i < |candidates| && Switches(c, candidates[i]) && forall j :: 0 <= j < i ==> !Switches(c, candidates[j])
    ensures Failover(c, candidates) == Switched(c, candidates[i])
  {
    hide Switches, Switched;
    if i > 0 { FailoverToFirst(c, candidates[1..], i - 1); }
  }

  /** A failover tries the known nodes in their order. */
  lemma FailoverToNode(c: Client, i: nat)
    requires i < |c.nodes| && Switches(c, c.nodes[i]) && forall j :: 0 <= j < i ==> !Switches(c, c.nodes[j])
    ensures Failover(c, Candidates(c)) == Switched(c, c.nodes[i])
  {
    hide Switches, Switched, Failover, Trim;
    FailoverToFirst(c, Candidates(c), i);
  }

  /** The configured seed comes after all known nodes. */
  lemma FailoverToSeed(c: Client)
    requires forall j :: 0 <= j < |c.nodes| ==> !Switches(c, c.nodes[j])
    ensures Failover(c, Candidates(c)) == Switched(c, Node(c.seedHost, c.seedPort))
  {
    hide Switches, Switched, Failover, Trim;
    var seed := Node(c.seedHost, c.seedPort);
    ValidSeed(c);
    if Switches(c, seed) {
      assert Candidates(c)[|c.nodes|] == seed;
      FailoverToFirst(c, Candidates(c), |c.nodes|);
    } else {
      FailoverSwitches(c, Candidates(c));
      forall n | n in Candidates(c) ensures !Switches(c, n) {
        assert n in c.nodes || n == seed;
      }
      StaysSwitched(c, seed);
    }
  }

  lemma ValidSeed(c: Client)
    ensures Switches(c, Node(c.seedHost, c.seedPort)) ==> Trim(c.seedHost) != [] && c.seedPort > 0
  {
    hide Trim;
  }

  lemma StaysSwitched(c: Client, node: Node)
    requires !Switches(c, node)
    ensures Switched(c, node) == c
  {
    hide Switches;
  }

  /** A refresh remembers the received nodes and goes to the first of them, when that is a valid node. */
  lemma RefreshGoesToBest(c: Client, nodes: seq<Node>)
    requires c.discovery && nodes != []
    ensures var d := Refreshed(c, nodes);
            && d.nodes == nodes && d.failures == 0
            && AddressOf(d) == if Trim(nodes[0].ip) != [] && nodes[0].port > 0
                               then Address(Trim(nodes[0].ip), nodes[0].port) else AddressOf(c)
  {
    hide Trim;
    SwitchedAddress(c.(nodes := nodes, failures := 0), nodes[0]);
  }

  /** Nothing that matters to switching has changed. */
  predicate SameTarget(c: Client, d: Client) {
    && AddressOf(d) == AddressOf(c) && d.recovery == c.recovery && d.fenced == c.fenced && d.legacy == c.legacy
    && d.cmd == c.cmd && d.sub == c.sub && d.release == c.release
  }

  /** The client has moved to another address: no pools, the switching bit is set, the takeover bit kept. */
  predicate Moved(c: Client, d: Client) {
    && AddressOf(d) != AddressOf(c) && Reachable(AddressOf(d))
    && IsSwitching(d.recovery) && MayTakeOver(d.recovery) == MayTakeOver(c.recovery)
    && d.cmd == None && d.sub == None && d.release == None && d.fenced == c.fenced && d.legacy == c.legacy
  }

  lemma SwitchedMoves(c: Client, node: Node)
    ensures if Switches(c, node) then Moved(c, Switched(c, node)) else Switched(c, node) == c
  {
    SwitchedAddress(c, node);
    hide Trim;
  }

  lemma FailoverMoves(c: Client, candidates: seq<Node>)
    ensures Failover(c, candidates) == c || Moved(c, Failover(c, candidates))
    ensures Failover(c, candidates) == c <==> forall n :: n in candidates ==> !Switches(c, n)
  {
    hide Switched, Switches, Moved;
    FailoverSwitches(c, candidates);
    if Failover(c, candidates) != c {
      var n :| n in candidates && Switches(c, n) && Failover(c, candidates) == Switched(c, n);
      SwitchedMoves(c, n);
    }
  }

  predicate SwitchEvent(e: Event) {
    e.Refresh? || e.Failure? || e.Timeout?
  }

  /** The address changes in a refresh or a failover only, and every change is a whole move. */
  lemma {:induction false} AddressChange(c: Client, e: Event)
    ensures AddressOf(Step(c, e)) != AddressOf(c) ==> SwitchEvent(e) && Moved(c, Step(c, e))
    ensures SwitchEvent(e) ==> SameTarget(c, Step(c, e)) || Moved(c, Step(c, e))
  {
    hide Failover, Switched, Switches, Trim;
    if SwitchEvent(e) { SwitchMoves(c, e); } else { hide SwitchEvent; StaysPut(c, e); }
  }

  lemma StaysPut(c: Client, e: Event)
    ensures SwitchEvent(e) || AddressOf(Step(c, e)) == AddressOf(c)
  {
    hide Trim, Refreshed, AfterFailure, AfterTimeout, WithBits, Connected, WithRelease, CanConnect, ProbeSucceeds;
  }

  lemma SwitchMoves(c: Client, e: Event)
    requires SwitchEvent(e)
    ensures SameTarget(c, Step(c, e)) || Moved(c, Step(c, e))
  {
    hide Failover, Switched, Switches, Trim;
    match e {
      case Refresh(nodes) =>
        if nodes != [] { SwitchedMoves(c.(nodes := nodes, failures := 0), nodes[0]); }
      case Failure => FailoverMoves(c.(failures := 0), Candidates(c));
      case Timeout => FailoverMoves(c.(failures := 0), Candidates(c));
    }
  }

  /** Operations act on the two bits independently; only a successful probe clears the switching bit. */
  lemma {:induction false} OnlyProbeClearsSwitching(c: Client, e: Event)
    ensures IsSwitching(c.recovery) && !IsSwitching(Step(c, e).recovery) ==> e.Probe? && ProbeSucceeds(c, e.answered)
    ensures !IsSwitching(c.recovery) && IsSwitching(Step(c, e).recovery) ==> AddressOf(Step(c, e)) != AddressOf(c)
    ensures !e.MarkTakeover? && !e.SuppressTakeover? && !e.Legacy? && !(e.Probe? && ProbeSucceeds(c, e.answered)) ==>
              MayTakeOver(Step(c, e).recovery) == MayTakeOver(c.recovery)
  {
    if SwitchEvent(e) {
      SwitchMoves(c, e);
      hide Step, AddressOf;
    } else if e.Probe? || e.MarkTakeover? || e.SuppressTakeover? || e.Legacy? {
      BitsOnly(c, e);
      hide Step, AddressOf;
    } else {
      RecoveryKept(c, e);
      hide Step, AddressOf;
    }
  }

  lemma BitsOnly(c: Client, e: Event)
    requires e.Probe? || e.MarkTakeover? || e.SuppressTakeover? || e.Legacy?
    ensures var r := Step(c, e).recovery;
            if e.Probe? then r == (if ProbeSucceeds(c, e.answered) then Stable else c.recovery)
            else r == WithBits(IsSwitching(c.recovery), e.MarkTakeover?)
  {
    hide AddressOf, WithBits, IsSwitching;
  }

  lemma RecoveryKept(c: Client, e: Event)
    requires !SwitchEvent(e) && !e.Probe? && !e.MarkTakeover? && !e.SuppressTakeover? && !e.Legacy?
    ensures Step(c, e).recovery == c.recovery
  {
    hide AddressOf, WithBits, Refreshed, AfterFailure, AfterTimeout, Probed, TakeoverMarked, TakeoverSuppressed,
         Connected, WithRelease, Trim, Failover;
    match e {
      case Restored | Discovered(_) | Lifecycle(_) =>
      case Connect | TakeRelease | Live =>
      case Close | CloseBootstrap | Abort =>
      case NewLifetime =>
      case _ => assert false;
    }
  }

  lemma ConnectedCurrent(c: Client)
    requires PoolsCurrent(c)
    ensures PoolsCurrent(Connected(c))
  {
    hide Trim;
  }

  lemma PingedCurrent(c: Client)
    requires PoolsCurrent(c)
    ensures PoolsCurrent(Pinged(c))
  {
    assert PoolsCurrent(c.(cmd := None)) by { hide Trim, Connected, Reachable; }
    hide PoolsCurrent, Connected;
    ConnectedCurrent(c.(cmd := None));
  }

  lemma SettledCurrent(c: Client)
    requires PoolsCurrent(c)
    ensures PoolsCurrent(Settled(c))
  {
    hide Trim, Reachable;
  }

  lemma ProbedCurrent(c: Client, answered: bool)
    requires PoolsCurrent(c)
    ensures PoolsCurrent(Probed(c, answered))
  {
    hide PoolsCurrent, Pinged, Settled, ProbeSucceeds;
    PingedCurrent(c);
    SettledCurrent(Pinged(c));
  }

  lemma WithReleaseCurrent(c: Client)
    requires PoolsCurrent(c)
    ensures PoolsCurrent(WithRelease(c))
  {
    hide Trim;
  }

  lemma OthersCurrent(c: Client, e: Event)
    requires PoolsCurrent(c) && !SwitchEvent(e) && !e.Connect? && !e.Probe? && !e.TakeRelease?
    ensures PoolsCurrent(Step(c, e))
  {
    hide Trim, Refreshed, AfterFailure, AfterTimeout, Connected, Probed, WithRelease, Reachable;
  }

  lemma PoolsStayCurrent(c: Client, e: Event)
    requires PoolsCurrent(c)
    ensures PoolsCurrent(Step(c, e))
  {
    if SwitchEvent(e) {
      SwitchMoves(c, e);
      hide Step, AddressOf;
    } else if e.Connect? {
      hide PoolsCurrent, Connected;
      ConnectedCurrent(c);
    } else if e.Probe? {
      hide PoolsCurrent, Probed;
      ProbedCurrent(c, e.answered);
    } else if e.TakeRelease? {
      hide PoolsCurrent, WithRelease;
      WithReleaseCurrent(c);
    } else {
      hide PoolsCurrent, Step;
      OthersCurrent(c, e);
    }
  }

  predicate Began(c: Client) {
    c.recovery == Stable && c.cmd == None && c.sub == None && c.release == None
  }

  /** In every run the switching bit says exactly that the address has changed without a successful probe since. */
  lemma {:induction false} SwitchingMeansUnprobed(c: Client, events: seq<Event>)
    requires Began(c)
    ensures IsSwitching(Run(c, events).recovery) <==> Unprobed(c, events)
    ensures PoolsCurrent(Run(c, events))
  {
    hide Step, AddressOf, ProbeSucceeds, PoolsCurrent;
    if events == [] {
      assert PoolsCurrent(c) by { BeganCurrent(c); }
    } else {
      var last := |events| - 1;
      SwitchingMeansUnprobed(c, events[..last]);
      var before, e := Run(c, events[..last]), events[last];
      PoolsStayCurrent(before, e);
      AddressChange(before, e);
      OnlyProbeClearsSwitching(before, e);
      if e.Probe? && ProbeSucceeds(before, e.answered) { ProbeSettles(before, e); }
    }
  }

  lemma BeganCurrent(c: Client)
    requires Began(c)
    ensures PoolsCurrent(c)
  {
  }

  lemma ProbeSettles(c: Client, e: Event)
    requires e.Probe? && ProbeSucceeds(c, e.answered)
    ensures Step(c, e).recovery == Stable
  {
  }

  /** Switch safety: whatever happens, across lifetimes too, a release client is only handed out when no
      address change is waiting for a successful probe; it belongs to the current address and was either
      cached for it or is new; and the client is neither fenced nor in a takeover. */
  lemma {:induction false} SwitchSafety(c: Client, events: seq<Event>)
    requires Began(c)
    ensures var now := Run(c, events);
            GivesRelease(now) ==>
              && !Unprobed(c, events) && !now.fenced && !MayTakeOver(now.recovery)
              && WithRelease(now).release == Some(AddressOf(now))
    ensures Unprobed(c, events) ==> Run(c, events).release == None
  {
    SwitchingMeansUnprobed(c, events);
    hide Run, Unprobed;
  }

  predicate SameLifetime(events: seq<Event>) {
    forall e :: e in events ==> !e.NewLifetime?
  }

  /** A closed or aborted client stays fenced and without pools until its next lifetime. */
  lemma {:induction false} FencedForever(c: Client, events: seq<Event>)
    requires c.fenced && PoolsCurrent(c) && SameLifetime(events)
    ensures var now := Run(c, events);
            now.fenced && now.cmd == None && now.sub == None && now.release == None && !GivesRelease(now)
  {
    FencedKept(c, events);
    hide Run;
  }

  lemma {:induction false} FencedKept(c: Client, events: seq<Event>)
    requires c.fenced && PoolsCurrent(c) && SameLifetime(events)
    ensures Run(c, events).fenced && PoolsCurrent(Run(c, events))
  {
    hide PoolsCurrent;
    if events != [] {
      var last := |events| - 1;
      FencedKept(c, events[..last]);
      var before, e := Run(c, events[..last]), events[last];
      assert e in events;
      PoolsStayCurrent(before, e);
      FenceStep(before, e);
    }
  }

  lemma FenceStep(c: Client, e: Event)
    requires !e.NewLifetime?
    ensures c.fenced ==> Step(c, e).fenced
  {
    if SwitchEvent(e) {
      SwitchMoves(c, e);
      hide Step;
    } else {
      hide Refreshed, AfterFailure, AfterTimeout, AddressOf;
    }
  }

  /** A membership downgraded to the legacy protocol never asks for a takeover again, in no later lifetime. */
  lemma {:induction false} LegacyNeverTakesOver(c: Client, events: seq<Event>)
    requires c.legacy
    ensures Run(c, events).legacy && !SendsTakeover(Run(c, events))
  {
    hide Step;
    if events != [] {
      var last := |events| - 1;
      LegacyNeverTakesOver(c, events[..last]);
      LegacyStep(Run(c, events[..last]), events[last]);
    }
  }

  lemma LegacyStep(c: Client, e: Event)
    ensures c.legacy ==> Step(c, e).legacy
  {
    if SwitchEvent(e) {
      SwitchMoves(c, e);
      hide Step;
    } else {
      hide Refreshed, AfterFailure, AfterTimeout, AddressOf;
    }
  }

  /** Consecutive failures reach another node, when discovery knows one, no later than at the third. */
  lemma ThirdFailureSwitches(c: Client, n: Node)
    requires c.discovery && c.failures < FAILOVER_THRESHOLD && n in Candidates(c) && Switches(c, n)
    ensures exists k :: 1 <= k <= FAILOVER_THRESHOLD && AddressOf(Run(c, Failures(k))) != AddressOf(c)
  {
    hide Trim, Run, Failures, Failover, Switched, AfterFailure;
    var k := FAILOVER_THRESHOLD - c.failures;
    CountFailures(c, k - 1);
    FailuresSnoc(c, k - 1);
    LastFailure(c);
    FailoverMoves(c.(failures := 0), Candidates(c));
  }

  lemma LastFailure(c: Client)
    requires c.discovery
    ensures AfterFailure(c.(failures := FAILOVER_THRESHOLD - 1)) == Failover(c.(failures := 0), Candidates(c))
  {
    hide Failover;
    var before := c.(failures := FAILOVER_THRESHOLD - 1);
    assert before.(failures := 0) == c.(failures := 0) && Candidates(before) == Candidates(c);
  }

  function Failures(k: nat): seq<Event> {
    if k == 0 then [] else Failures(k - 1) + [Failure]
  }

  lemma FailuresSnoc(c: Client, k: nat)
    ensures Run(c, Failures(k + 1)) == AfterFailure(Run(c, Failures(k)))
  {
    assert Failures(k + 1)[..|Failures(k + 1)| - 1] == Failures(k);
  }

  lemma {:induction false} CountFailures(c: Client, k: nat)
    requires c.discovery && c.failures + k < FAILOVER_THRESHOLD
    ensures Run(c, Failures(k)) == c.(failures := c.failures + k)
  {
    hide AfterFailure;
    if k > 0 {
      CountFailures(c, k - 1);
      FailuresSnoc(c, k - 1);
      CountOne(c.(failures := c.failures + (k - 1)));
    }
  }

  lemma CountOne(c: Client)
    requires c.discovery && c.failures + 1 < FAILOVER_THRESHOLD
    ensures AfterFailure(c) == c.(failures := c.failures + 1)
  {
  }

  // ----- the client object

  datatype Refusal = DispatchFenced | NotConnected | Disabled | InvalidAddress

  datatype Given = Given(pool: Address) | Refused(reason: Refusal)

  class HomeClient {
    var host: Bytes
    var port: int
    const enabled: bool
    const discovery: bool
    const seedHost: Bytes
    const seedPort: int
    var cmd: Option<Address>
    var sub: Option<Address>
    var release: Option<Address>
    var heartbeat: bool
    var fenced: bool
    var ambiguous: bool
    var recovery: Recovery
    var legacy: bool
    var nodes: seq<Node>
    var failures: nat
    var revision: int

    function Value(): Client
      reads this
    {
      Client(host, port, enabled, discovery, seedHost, seedPort, cmd, sub, release, heartbeat, fenced, ambiguous,
             recovery, legacy, nodes, failures, revision)
    }

    constructor (host: Bytes, port: int, enabled: bool, discovery: bool)
      ensures Value() == Fresh(host, port, enabled, discovery) && Began(Value())
    {
      hide Trim;
      this.host, this.port, this.enabled, this.discovery := host, port, enabled, discovery;
      seedHost, seedPort := Trim(host), port;
      cmd, sub, release := None, None, None;
      heartbeat, fenced, ambiguous, recovery, legacy := false, false, false, Stable, false;
      nodes, failures, revision := [], 0, 0;
    }

    /** NewLifetime: the fields a replacement client starts with. */
    constructor NextOf(c: HomeClient)
      ensures Value() == NextLifetime(c.Value())
      ensures host == c.host && port == c.port && nodes == c.nodes && failures == c.failures && recovery == c.recovery
      ensures legacy == c.legacy && !fenced && !heartbeat && cmd == None && sub == None && release == None
    {
      host, port, enabled, discovery := c.host, c.port, c.enabled, c.discovery;
      seedHost, seedPort := c.seedHost, c.seedPort;
      cmd, sub, release := None, None, None;
      heartbeat, fenced, ambiguous, recovery, legacy := false, false, false, c.recovery, c.legacy;
      nodes, failures, revision := c.nodes, c.failures, 0;
    }

    /** An atomic compare-and-swap of the recovery state. */
    method CompareAndSwap(expected: Recovery, next: Recovery) returns (swapped: bool)
      modifies this`recovery
      ensures swapped <==> old(recovery) == expected
      ensures recovery == if swapped then next else old(recovery)
    {
      swapped := recovery == expected;
      if swapped { recovery := next; }
    }

    method DetachClients()
      modifies this`cmd, this`sub
      ensures cmd == None && sub == None
    {
      cmd, sub := None, None;
    }

    /** The two compare-and-swaps of a switch. */
    method MarkSwitching()
      modifies this`recovery
      ensures recovery == WithBits(true, MayTakeOver(old(recovery)))
    {
      var stable := CompareAndSwap(Stable, Switching);
      if !stable { var eligible := CompareAndSwap(TakeoverEligible, SwitchingTakeover); }
    }

    method SwitchToNode(node: Node) returns (switched: bool)
      modifies this`host, this`port, this`cmd, this`sub, this`release, this`recovery
      ensures Value() == Switched(old(Value()), node) && switched == Switches(old(Value()), node)
    {
      hide Trim;
      var target := Trim(node.ip);
      if target == [] || node.port <= 0 { return false; }
      if Trim(host) == target && port == node.port { return false; }
      hide WithBits, MayTakeOver;
      host, port := target, node.port;
      MarkSwitching();
      DetachClients();
      release := None;
      return true;
    }

    method SwitchToNextNode() returns (switched: bool)
      modifies this`host, this`port, this`cmd, this`sub, this`release, this`recovery
      ensures Value() == Failover(old(Value()), Candidates(old(Value())))
      ensures switched <==> exists n :: n in Candidates(old(Value())) && Switches(old(Value()), n)
    {
      hide Trim, Switched;
      ghost var c := Value();
      var currentHost, currentPort := Trim(host), port;
      var candidates := nodes;
      if Trim(seedHost) != [] && seedPort > 0 { candidates := candidates + [Node(seedHost, seedPort)]; }
      assert candidates == Candidates(c) by { assert nodes + [] == nodes; }
      assert candidates[0..] == candidates;
      for i := 0 to |candidates|
        invariant Value() == c && Failover(c, candidates) == Failover(c, candidates[i..])
        invariant forall j :: 0 <= j < i ==> !Switches(c, candidates[j])
      {
        var target := Trim(candidates[i].ip);
        assert candidates[i..][1..] == candidates[i + 1..];
        if target == [] || candidates[i].port <= 0 { continue; }
        if target == currentHost && candidates[i].port == currentPort { continue; }
        assert Switches(c, candidates[i]);
        TrimTwice(candidates[i].ip);
        TrimmedTarget(c, candidates[i]);
        switched := SwitchToNode(Node(target, candidates[i].port));
        if switched { return true; }
      }
      assert candidates[|candidates|..] == [];
      return false;
    }

    method MarkReconnectFailure() returns (switched: bool)
      modifies this
      ensures Value() == AfterFailure(old(Value()))
      ensures switched <==> AddressOf(Value()) != AddressOf(old(Value()))
    {
      hide Failover, Candidates, Trim;
      if !discovery {
        failures := 0;
        return false;
      }
      failures := failures + 1;
      if failures < FAILOVER_THRESHOLD { return false; }
      failures := 0;
      ghost var c := Value();
      FailoverMoves(c, Candidates(c));
      switched := SwitchToNextNode();
      assert Candidates(c) == Candidates(old(Value())) by { SameCandidates(c, old(Value())); }
    }

    method MarkSubscriptionTimeout() returns (switched: bool)
      modifies this
      ensures Value() == AfterTimeout(old(Value()))
      ensures switched <==> AddressOf(Value()) != AddressOf(old(Value()))
    {
      hide Failover, Candidates, Trim;
      ghost var before := Value();
      failures := 0;
      if !discovery { return false; }
      ghost var c := Value();
      FailoverMoves(c, Candidates(c));
      switched := SwitchToNextNode();
      assert Candidates(c) == Candidates(before) by { SameCandidates(c, before); }
    }

    /** The tail of refreshClusterNodes, after the node list has been received and normalised. */
    method RefreshClusterNodes(received: seq<Node>) returns (switched: bool)
      modifies this
      ensures Value() == Refreshed(old(Value()), received)
      ensures switched <==> AddressOf(Value()) != AddressOf(old(Value()))
    {
      hide Switched, Switches, Trim;
      if !discovery || received == [] { return false; }
      nodes := received;
      failures := 0;
      SwitchedMoves(Value(), received[0]);
      switched := SwitchToNode(received[0]);
    }

    method MarkMembershipTakeoverEligible()
      modifies this`recovery
      ensures Value() == TakeoverMarked(old(Value()))
      ensures MayTakeOver(recovery) && (IsSwitching(recovery) <==> IsSwitching(old(recovery)))
    {
      var stable := CompareAndSwap(Stable, TakeoverEligible);
      if !stable { var switching := CompareAndSwap(Switching, SwitchingTakeover); }
    }

    method SuppressTakeover()
      modifies this`recovery
      ensures Value() == TakeoverSuppressed(old(Value()))
      ensures !MayTakeOver(recovery) && (IsSwitching(recovery) <==> IsSwitching(old(recovery)))
    {
      var eligible := CompareAndSwap(TakeoverEligible, Stable);
      if !eligible { var takeover := CompareAndSwap(SwitchingTakeover, Switching); }
    }

    method EnableLegacyMembership()
      modifies this`legacy, this`recovery
      ensures Value() == TakeoverSuppressed(old(Value()).(legacy := true))
    {
      legacy := true;
      SuppressTakeover();
    }

    method EnsureClients() returns (ok: bool)
      modifies this`cmd, this`sub
      ensures Value() == Connected(old(Value())) && ok == CanConnect(old(Value()))
      ensures ok <==> !fenced && enabled && Trim(host) != [] && port > 0
      ensures ok ==> cmd == Some(if old(cmd).Some? then old(cmd).value else Address(Trim(host), port))
      ensures ok ==> sub == Some(if old(sub).Some? then old(sub).value else Address(Trim(host), port))
    {
      hide Trim;
      if fenced || !enabled { return false; }
      if Trim(host) == [] || port <= 0 { return false; }
      var address := Address(Trim(host), port);
      if cmd == None { cmd := Some(address); }
      if sub == None { sub := Some(address); }
      return true;
    }

    /** A ping through a new command pool; `answered`: whether the server answers it. */
    method PingThroughNewPool(answered: bool) returns (ok: bool)
      modifies this`cmd, this`sub
      ensures Value() == Pinged(old(Value())) && ok == ProbeSucceeds(old(Value()), answered)
    {
      hide Trim, Connected;
      cmd := None;
      var connected := EnsureClients();
      return connected && answered;
    }

    /** The store after an answered ping, unconditional and without the lock. */
    method Settle()
      modifies this`recovery
      ensures Value() == Settled(old(Value()))
    {
      recovery := Stable;
    }

    /** Without anything between the ping and the store. */
    method RebuildCommandPoolAndProbe(answered: bool) returns (ok: bool)
      modifies this`cmd, this`sub, this`recovery
      ensures Value() == Probed(old(Value()), answered) && ok == ProbeSucceeds(old(Value()), answered)
    {
      hide Pinged, Settled, ProbeSucceeds;
      ok := PingThroughNewPool(answered);
      if ok { Settle(); }
    }

    method ConcurrencyReleaseClient() returns (given: Given)
      modifies this`release
      ensures Value() == WithRelease(old(Value()))
      ensures given.Given? <==>
                GivesRelease(old(Value())) || (old(release).Some? && !fenced && enabled && recovery == Stable)
      ensures PoolsCurrent(old(Value())) ==>
                (given.Given? <==> GivesRelease(old(Value()))) && (given.Given? ==> given.pool == AddressOf(Value()))
      ensures given.Given? ==>
                release == Some(given.pool) && given.pool == if old(release).Some? then old(release).value
                else AddressOf(Value())
      ensures given == Refused(DispatchFenced) <==> fenced
      ensures given == Refused(NotConnected) <==> !fenced && recovery != Stable
      ensures given == Refused(Disabled) <==> !fenced && recovery == Stable && !enabled
    {
      hide Trim;
      if fenced { return Refused(DispatchFenced); }
      if recovery == TakeoverEligible || recovery == Switching || recovery == SwitchingTakeover {
        return Refused(NotConnected);
      }
      if !enabled { return Refused(Disabled); }
      if release != None { return Given(release.value); }
      if Trim(host) == [] || port <= 0 { return Refused(InvalidAddress); }
      release := Some(Address(Trim(host), port));
      return Given(release.value);
    }

    method Close()
      modifies this
      ensures Value() == Fenced(old(Value()))
      ensures fenced && !heartbeat && cmd == None && sub == None && release == None && recovery == old(recovery)
    {
      fenced := true;
      heartbeat := false;
      DetachClients();
      release := None;
    }

    /** Keeps the release client and the lifetime. */
    method CloseBootstrapPools()
      modifies this
      ensures Value() == BootstrapClosed(old(Value()))
      ensures !heartbeat && cmd == None && sub == None && release == old(release) && fenced == old(fenced)
    {
      heartbeat := false;
      DetachClients();
    }

    method AbortAmbiguousDispatch()
      modifies this`ambiguous, this`fenced, this`heartbeat, this`cmd, this`sub, this`release
      ensures Value() == Aborted(old(Value()))
      ensures ambiguous && fenced && !heartbeat && cmd == None && sub == None && release == None
    {
      ambiguous := true;
      fenced := true;
      heartbeat := false;
      DetachClients();
      release := None;
    }

    /** The subscription arguments behind the channel: the revision, "takeover" and the instance identifier. */
    method SubscriptionParameters() returns (revised: bool, takeover: bool, instance: bool)
      ensures takeover <==> SendsTakeover(Value())
      ensures takeover <==> revision > 0 && !legacy && (recovery == TakeoverEligible || recovery == SwitchingTakeover)
      ensures revised <==> revision > 0
      ensures instance <==> revised && !legacy
    {
      revised := revision > 0;
      if !revised || legacy { return revised, false, false; }
      takeover := recovery == TakeoverEligible || recovery == SwitchingTakeover;
      instance := true;
    }
  }

  lemma TrimmedTarget(c: Client, node: Node)
    ensures Switches(c, Node(Trim(node.ip), node.port)) <==> Switches(c, node)
    ensures Switched(c, Node(Trim(node.ip), node.port)) == Switched(c, node)
  {
    TrimTwice(node.ip);
    hide Trim;
  }

  lemma SameCandidates(c: Client, d: Client)
    requires c.nodes == d.nodes && c.seedHost == d.seedHost && c.seedPort == d.seedPort
    ensures Candidates(c) == Candidates(d)
  {
  }
}
