// The command probe of a Home client in two steps (internal/home/client.go): the ping is sent and answered
// without the lock, and the store that follows does not look whether the target has changed meanwhile.
module HomeProbe {
  import opened Bytes
  import opened HomeRecovery

  /** A step of the client: any atomic method but the probe, or one half of the probe. */
  datatype Part = Whole(e: Event) | Ping(answered: bool) | Store

  /** The client, whether an answered ping still waits for its store, whether the address has changed since that
      ping, and whether it has changed without a ping answered and stored at the new address. */
  datatype Probing = Probing(client: Client, pinged: bool, moved: bool, unproven: bool)

  predicate Splits(parts: seq<Part>) {
    forall p :: p in parts ==> p.Whole? ==> !p.e.Probe?
  }

  /** A new lifetime is another client object: the store of the old one does not reach it. */
  function PartStep(s: Probing, p: Part): Probing {
    match p
    case Whole(e) =>
      var next := Step(s.client, e);
      var changed := AddressOf(next) != AddressOf(s.client);
      Probing(next, s.pinged && !e.NewLifetime?, s.moved || changed, s.unproven || changed)
    case Ping(answered) => Probing(Pinged(s.client), ProbeSucceeds(s.client, answered), false, s.unproven)
    case Store =>
      if s.pinged then Probing(Settled(s.client), false, s.moved, s.unproven && s.moved) else s
  }

  function PartRun(c: Client, parts: seq<Part>): Probing {
    if parts == [] then Probing(c, false, false, false)
    else PartStep(PartRun(c, parts[..|parts| - 1]), parts[|parts| - 1])
  }

  /** The store comes after an address change that came after its ping. */
  predicate LateStore(s: Probing, p: Part) {
    p.Store? && s.pinged && s.moved
  }

  /** No address change falls between an answered ping and its store. */
  predicate Timely(c: Client, parts: seq<Part>) {
    parts == [] || (Timely(c, parts[..|parts| - 1]) && !LateStore(PartRun(c, parts[..|parts| - 1]), parts[|parts| - 1]))
  }

  /** The switching bit says exactly that the address has changed without a probe since. */
  predicate BitIsRight(s: Probing) {
    IsSwitching(s.client.recovery) <==> s.unproven
  }

  predicate AlwaysRight(c: Client, parts: seq<Part>) {
    BitIsRight(PartRun(c, parts)) && (parts == [] || AlwaysRight(c, parts[..|parts| - 1]))
  }

  /** With nothing in between, the two halves are the atomic probe. */
  lemma HalvesMakeProbe(s: Probing, answered: bool)
    requires !s.pinged
    ensures var t := PartStep(PartStep(s, Ping(answered)), Store);
            && t.client == Probed(s.client, answered) && !t.pinged
            && t.unproven == (s.unproven && !ProbeSucceeds(s.client, answered))
  {
    hide Pinged, Settled, ProbeSucceeds;
  }

  lemma WholeKeeps(s: Probing, e: Event)
    requires !e.Probe? && BitIsRight(s)
    ensures BitIsRight(PartStep(s, Whole(e)))
  {
    AddressChange(s.client, e);
    OnlyProbeClearsSwitching(s.client, e);
    hide Step, AddressOf;
  }

  lemma PartKeeps(s: Probing, p: Part)
    requires (p.Whole? ==> !p.e.Probe?) && BitIsRight(s) && (s.pinged && s.moved ==> s.unproven)
    ensures BitIsRight(PartStep(s, p)) <==> !LateStore(s, p)
  {
    if p.Whole? {
      hide PartStep;
      WholeKeeps(s, p.e);
    } else {
      hide ProbeSucceeds;
    }
  }

  lemma {:induction false} MovedIsUnproven(c: Client, parts: seq<Part>)
    ensures var s := PartRun(c, parts); s.pinged && s.moved ==> s.unproven
  {
    hide Step, AddressOf, Pinged, Settled, ProbeSucceeds;
    if parts != [] { MovedIsUnproven(c, parts[..|parts| - 1]); }
  }

  /** Exactly the runs without a late store keep the bit right from beginning to end. */
  lemma {:induction false} RightIffTimely(c: Client, parts: seq<Part>)
    requires Began(c) && Splits(parts)
    ensures AlwaysRight(c, parts) <==> Timely(c, parts)
  {
    if parts != [] {
      var last := |parts| - 1;
      RightIffTimely(c, parts[..last]);
      MovedIsUnproven(c, parts[..last]);
      assert parts[last] in parts;
      hide PartStep, BitIsRight, LateStore;
      assert AlwaysRight(c, parts[..last]) ==> BitIsRight(PartRun(c, parts[..last]));
      if AlwaysRight(c, parts[..last]) { PartKeeps(PartRun(c, parts[..last]), parts[last]); }
    }
  }

  lemma PartKeepsPools(s: Probing, p: Part)
    requires PoolsCurrent(s.client)
    ensures PoolsCurrent(PartStep(s, p).client)
  {
    hide PoolsCurrent, Step, AddressOf, Pinged, Settled;
    match p {
      case Whole(e) => PoolsStayCurrent(s.client, e);
      case Ping(_) => PingedCurrent(s.client);
      case Store => SettledCurrent(s.client);
    }
  }

  /** Even with late stores every pool belongs to the current address. */
  lemma {:induction false} PoolsFollowAddress(c: Client, parts: seq<Part>)
    requires Began(c)
    ensures PoolsCurrent(PartRun(c, parts).client)
  {
    hide PoolsCurrent, PartStep;
    if parts == [] {
      BeganCurrent(c);
    } else {
      PoolsFollowAddress(c, parts[..|parts| - 1]);
      PartKeepsPools(PartRun(c, parts[..|parts| - 1]), parts[|parts| - 1]);
    }
  }

  /** Switch safety with the probe in two halves: without a late store no release client is given before the
      current address has answered. */
  lemma {:induction false} SplitSwitchSafety(c: Client, parts: seq<Part>)
    requires Began(c) && Splits(parts) && Timely(c, parts)
    ensures var s := PartRun(c, parts);
            && (GivesRelease(s.client) ==> !s.unproven && WithRelease(s.client).release == Some(AddressOf(s.client)))
            && (s.unproven ==> s.client.release == None)
  {
    RightIffTimely(c, parts);
    PoolsFollowAddress(c, parts);
    hide PartRun, AddressOf;
  }

  /** A late store gives a release client for an address that no ping has reached. */
  lemma LateStoreGivesUnproven(c: Client, node: Node)
    requires Began(c) && CanConnect(c) && c.discovery && Switches(c, node)
    ensures var parts := [Ping(true), Whole(Refresh([node])), Store];
            var s := PartRun(c, parts);
            && Splits(parts) && !Timely(c, parts) && s.unproven && GivesRelease(s.client)
            && WithRelease(s.client).release == Some(Address(Trim(node.ip), node.port))
  {
    hide Trim, TrimLeft, TrimRight;
    var s1 := PartStep(Probing(c, false, false, false), Ping(true));
    var s2 := PartStep(s1, Whole(Refresh([node])));
    AfterPing(c);
    RefreshMoves(s1.client, node);
    ThreeParts(c, Ping(true), Whole(Refresh([node])), Store);
    assert s2.pinged && s2.moved by { hide Step, Pinged, AddressOf; }
    hide PartRun, Timely, Step, Pinged, AddressOf, Switches, CanConnect;
    StoreGives(s2.client);
  }

  lemma AfterPing(c: Client)
    requires Began(c) && CanConnect(c)
    ensures Pinged(c) == c.(cmd := Some(AddressOf(c)), sub := Some(AddressOf(c))) && ProbeSucceeds(c, true)
    ensures forall n :: Switches(Pinged(c), n) == Switches(c, n)
  {
    hide Trim;
  }

  lemma StoreGives(c: Client)
    requires CanConnect(c) && c.release == None
    ensures GivesRelease(Settled(c)) && WithRelease(Settled(c)).release == Some(AddressOf(Settled(c)))
    ensures AddressOf(Settled(c)) == AddressOf(c)
  {
    hide Trim, Reachable;
  }

  lemma ThreeParts(c: Client, first: Part, second: Part, third: Part)
    ensures var s := PartStep(PartStep(Probing(c, false, false, false), first), second);
            && PartRun(c, [first, second, third]) == PartStep(s, third)
            && (Timely(c, [first, second, third]) ==> !LateStore(s, third))
  {
    hide PartStep, LateStore;
    var parts := [first, second, third];
    assert parts[..2] == [first, second] && parts[..2][..1] == [first] && parts[..2][..1][..0] == [];
    assert PartRun(c, [first]) == PartStep(Probing(c, false, false, false), first);
    assert PartRun(c, [first, second]) == PartStep(PartRun(c, [first]), second);
  }

  lemma RefreshMoves(c: Client, node: Node)
    requires c.discovery && c.release == None && !c.fenced && c.enabled && Switches(c, node)
    ensures var d := Step(c, Refresh([node]));
            AddressOf(d) == Address(Trim(node.ip), node.port) && AddressOf(d) != AddressOf(c) && d.release == None &&
            CanConnect(d)
  {
    hide Trim;
    var c1 := c.(nodes := [node], failures := 0);
    SwitchedAddress(c1, node);
    SwitchedMoves(c1, node);
    assert Step(c, Refresh([node])) == Switched(c1, node) by { hide Switched; }
  }
}
