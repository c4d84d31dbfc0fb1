// The cumulative release flusher (internal/home/concurrency_release.go): callers mark a group dirty at
// any time; one flusher snapshots, sends without holding the lock, and acknowledges.
module ReleaseFlusher {
  import opened Bytes

  datatype Group = Group(credentialId: string, model: string)

  /** A done channel, by number. */
  type Channel = nat

  datatype State = State(latest: int, acked: int, waiters: map<int, seq<Channel>>)

  const NO_STATE := State(0, 0, map[])

  /** What the ticket handed out by a MarkDirty call waits for. */
  datatype Ticket = Ticket(group: Group, sequence: int)

  /** The flusher's groups and closed channels, with every ticket handed out so far. */
  datatype Ledger = Ledger(groups: map<Group, State>, closed: set<Channel>, tickets: map<Channel, Ticket>)

  const EMPTY := Ledger(map[], {}, map[])

  function Lookup(groups: map<Group, State>, group: Group): State {
    if group in groups then groups[group] else NO_STATE
  }

  function Of(l: Ledger, group: Group): State {
    Lookup(l.groups, group)
  }

  predicate Accepted(t: Ticket) {
    t.sequence > 0 && t.group.credentialId != "" && t.group.model != ""
  }

  // ----- the two atomic steps

  function WithWaiter(s: State, c: Channel, sequence: int): State {
    State(if sequence > s.latest then sequence else s.latest, s.acked,
          s.waiters[sequence := (if sequence in s.waiters then s.waiters[sequence] else []) + [c]])
  }

  /** MarkDirty hands out channel `c`. */
  function Marked(l: Ledger, c: Channel, t: Ticket): Ledger {
    var s := Of(l, t.group);
    var l' := l.(tickets := l.tickets[c := t]);
    if t.sequence <= s.acked then l'.(closed := l.closed + {c})
    else l'.(groups := l.groups[t.group := WithWaiter(s, c, t.sequence)])
  }

  function After(s: State, sequence: int): State {
    State(s.latest, sequence, map q | q in s.waiters && q > sequence :: s.waiters[q])
  }

  /** Every channel waiting for a sequence up to the acknowledged one. */
  function Due(s: State, sequence: int): set<Channel> {
    set q, c | q in s.waiters && q <= sequence && c in s.waiters[q] :: c
  }

  /** A frame with this sequence was sent with success. */
  function Acknowledged(l: Ledger, group: Group, sequence: int): Ledger {
    var s := Of(l, group);
    if sequence <= s.acked then l
    else Ledger(l.groups[group := After(s, sequence)], l.closed + Due(s, sequence), l.tickets)
  }

  // ----- invariant

  predicate Distinct(s: seq<Channel>) {
    forall i, j :: 0 <= i < j < |s| ==> s[i] != s[j]
  }

  /** The sequences and the channels of a group are in order; an unacknowledged latest sequence has a waiter. */
  predicate StateOk(s: State) {
    && 0 <= s.acked <= s.latest
    && (forall q :: q in s.waiters ==> s.acked < q <= s.latest && Distinct(s.waiters[q]))
    && (s.latest > s.acked ==> s.latest in s.waiters && s.waiters[s.latest] != [])
  }

  /** Every waiting channel belongs to an open ticket for that group and sequence. */
  predicate WaitersOk(group: Group, s: State, tickets: map<Channel, Ticket>, closed: set<Channel>) {
    forall q, c :: q in s.waiters && c in s.waiters[q] ==>
      c in tickets && tickets[c] == Ticket(group, q) && c !in closed
  }

  /** A ticket is closed exactly when its sequence is acknowledged, and waits in its place until then. */
  predicate TicketOk(c: Channel, t: Ticket, s: State, closed: set<Channel>) {
    && Accepted(t)
    && (c in closed <==> t.sequence <= s.acked)
    && (c !in closed ==> t.sequence in s.waiters && c in s.waiters[t.sequence])
  }

  predicate Inv(l: Ledger) {
    && l.closed <= l.tickets.Keys
    && (forall g :: g in l.groups ==> StateOk(l.groups[g]) && WaitersOk(g, l.groups[g], l.tickets, l.closed))
    && (forall c :: c in l.tickets ==> TicketOk(c, l.tickets[c], Of(l, l.tickets[c].group), l.closed))
  }

  lemma WithWaiterOk(s: State, c: Channel, sequence: int)
    requires StateOk(s) && sequence > s.acked
    requires forall q :: q in s.waiters ==> c !in s.waiters[q]
    ensures StateOk(WithWaiter(s, c, sequence))
  {
    var s' := WithWaiter(s, c, sequence);
    var before := if sequence in s.waiters then s.waiters[sequence] else [];
    forall i, j | 0 <= i < j < |before + [c]| ensures (before + [c])[i] != (before + [c])[j] {
      if j == |before| { assert (before + [c])[i] in before; }
    }
    assert s'.waiters[sequence] == before + [c];
    assert forall q :: q in s'.waiters && q != sequence ==> s'.waiters[q] == s.waiters[q];
  }

  lemma InvMarked(l: Ledger, c: Channel, t: Ticket)
    requires Inv(l) && c !in l.tickets && Accepted(t)
    ensures Inv(Marked(l, c, t))
  {
    hide Distinct, StateOk, TicketOk, WaitersOk;
    MarkedStates(l, c, t);
    MarkedWaiters(l, c, t);
    MarkedTickets(l, c, t);
    hide Accepted, WithWaiter;
  }

  lemma MarkedStates(l: Ledger, c: Channel, t: Ticket)
    requires Inv(l) && c !in l.tickets && Accepted(t)
    ensures var l' := Marked(l, c, t);
            forall g :: g in l'.groups ==> StateOk(l'.groups[g])
  {
    hide StateOk, TicketOk, WithWaiter;
    var s, l' := Of(l, t.group), Marked(l, c, t);
    if t.sequence > s.acked {
      NewChannel(l, c, t.group);
      WithWaiterOk(s, c, t.sequence);
    }
  }

  lemma NewChannel(l: Ledger, c: Channel, group: Group)
    requires Inv(l) && c !in l.tickets
    ensures StateOk(Of(l, group)) && forall q :: q in Of(l, group).waiters ==> c !in Of(l, group).waiters[q]
  {
    hide TicketOk, Distinct;
    if group in l.groups { assert StateOk(l.groups[group]) && WaitersOk(group, l.groups[group], l.tickets, l.closed); }
  }

  lemma MarkedWaiters(l: Ledger, c: Channel, t: Ticket)
    requires Inv(l) && c !in l.tickets && Accepted(t)
    ensures var l' := Marked(l, c, t);
            forall g :: g in l'.groups ==> WaitersOk(g, l'.groups[g], l'.tickets, l'.closed)
  {
    hide Distinct, StateOk, TicketOk;
    var l' := Marked(l, c, t);
    forall g | g in l'.groups ensures WaitersOk(g, l'.groups[g], l'.tickets, l'.closed) {
      if g in l.groups { assert WaitersOk(g, l.groups[g], l.tickets, l.closed); }
    }
  }

  lemma MarkedTickets(l: Ledger, c: Channel, t: Ticket)
    requires Inv(l) && c !in l.tickets && Accepted(t)
    ensures var l' := Marked(l, c, t);
            forall d :: d in l'.tickets ==> TicketOk(d, l'.tickets[d], Of(l', l'.tickets[d].group), l'.closed)
  {
    hide Distinct, StateOk, WaitersOk;
    var l' := Marked(l, c, t);
    forall d | d in l'.tickets ensures TicketOk(d, l'.tickets[d], Of(l', l'.tickets[d].group), l'.closed) {
      if d != c { assert TicketOk(d, l.tickets[d], Of(l, l.tickets[d].group), l.closed); }
    }
  }

  lemma DueTickets(l: Ledger, group: Group, sequence: int, c: Channel)
    requires Inv(l) && group in l.groups
    ensures c in Due(l.groups[group], sequence) <==>
            c in l.tickets && c !in l.closed && l.tickets[c].group == group && l.tickets[c].sequence <= sequence
  {
    assert WaitersOk(group, l.groups[group], l.tickets, l.closed);
    if c in l.tickets { assert TicketOk(c, l.tickets[c], Of(l, l.tickets[c].group), l.closed); }
  }

  lemma AckedStates(l: Ledger, group: Group, sequence: int)
    requires Inv(l) && group in l.groups && l.groups[group].acked < sequence <= l.groups[group].latest
    ensures forall g :: g in l.groups ==> StateOk(Acknowledged(l, group, sequence).groups[g])
  {
    hide Distinct, Due, TicketOk, WaitersOk;
    forall g | g in l.groups ensures StateOk(Acknowledged(l, group, sequence).groups[g]) {
      assert StateOk(l.groups[g]);
    }
  }

  lemma AckedWaiters(l: Ledger, group: Group, sequence: int, g: Group)
    requires Inv(l) && group in l.groups && l.groups[group].acked < sequence <= l.groups[group].latest && g in l.groups
    ensures var l' := Acknowledged(l, group, sequence); WaitersOk(g, l'.groups[g], l'.tickets, l'.closed)
  {
    hide Distinct, Due, TicketOk, StateOk;
    var l' := Acknowledged(l, group, sequence);
    assert WaitersOk(g, l.groups[g], l.tickets, l.closed);
    forall q, c | q in l'.groups[g].waiters && c in l'.groups[g].waiters[q]
      ensures c in l'.tickets && l'.tickets[c] == Ticket(g, q) && c !in l'.closed
    {
      assert q in l.groups[g].waiters && c in l.groups[g].waiters[q];
      DueTickets(l, group, sequence, c);
    }
  }

  lemma AckedTicket(l: Ledger, group: Group, sequence: int, c: Channel)
    requires Inv(l) && group in l.groups && l.groups[group].acked < sequence <= l.groups[group].latest && c in l.tickets
    ensures var l' := Acknowledged(l, group, sequence);
            TicketOk(c, l'.tickets[c], Of(l', l'.tickets[c].group), l'.closed)
  {
    hide Distinct, Due, WaitersOk, StateOk;
    assert TicketOk(c, l.tickets[c], Of(l, l.tickets[c].group), l.closed);
    DueTickets(l, group, sequence, c);
  }

  lemma DueAreTickets(l: Ledger, group: Group, sequence: int)
    requires Inv(l) && group in l.groups
    ensures Due(l.groups[group], sequence) <= l.tickets.Keys
  {
    hide Distinct, Due, WaitersOk, StateOk, TicketOk;
    forall c | c in Due(l.groups[group], sequence) ensures c in l.tickets { DueTickets(l, group, sequence, c); }
  }

  lemma InvAcknowledged(l: Ledger, group: Group, sequence: int)
    requires Inv(l) && group in l.groups && sequence <= l.groups[group].latest
    ensures Inv(Acknowledged(l, group, sequence))
  {
    hide Distinct, Due, WaitersOk, StateOk, TicketOk, After;
    var l' := Acknowledged(l, group, sequence);
    if sequence > l.groups[group].acked {
      AckedStates(l, group, sequence);
      DueAreTickets(l, group, sequence);
      forall g | g in l.groups ensures WaitersOk(g, l'.groups[g], l'.tickets, l'.closed) {
        AckedWaiters(l, group, sequence, g);
      }
      forall c | c in l.tickets ensures TicketOk(c, l'.tickets[c], Of(l', l'.tickets[c].group), l'.closed) {
        AckedTicket(l, group, sequence, c);
      }
    }
  }

  /** An acknowledgement closes exactly the open tickets of its group up to its sequence, none of them closed before. */
  lemma {:induction false} AcknowledgementCloses(l: Ledger, group: Group, sequence: int)
    requires Inv(l) && group in l.groups && l.groups[group].acked < sequence <= l.groups[group].latest
    ensures var due := Due(l.groups[group], sequence);
            && due !! l.closed && Acknowledged(l, group, sequence).closed == l.closed + due
            && due == set c | c in l.tickets && c !in l.closed && l.tickets[c].group == group &&
               l.tickets[c].sequence <= sequence
  {
    var due := Due(l.groups[group], sequence);
    forall c
      ensures c in due <==>
                c in l.tickets && c !in l.closed && l.tickets[c].group == group && l.tickets[c].sequence <= sequence
    {
      DueTickets(l, group, sequence, c);
    }
  }

  // ----- runs: any interleaving of marks with the acknowledgements of one flusher

  datatype Event = Mark(c: Channel, t: Ticket) | Ack(group: Group, sequence: int)

  /** An acknowledgement is for a sequence that was the latest at some earlier snapshot. */
  predicate Enabled(l: Ledger, e: Event) {
    match e
    case Mark(c, t) => c !in l.tickets && Accepted(t)
    case Ack(group, sequence) => group in l.groups && sequence <= l.groups[group].latest
  }

  function Apply(l: Ledger, e: Event): Ledger {
    match e
    case Mark(c, t) => Marked(l, c, t)
    case Ack(group, sequence) => Acknowledged(l, group, sequence)
  }

  predicate Runs(l: Ledger, events: seq<Event>)
    decreases |events|
  {
    events == [] || (Enabled(l, events[0]) && Runs(Apply(l, events[0]), events[1..]))
  }

  function Final(l: Ledger, events: seq<Event>): Ledger
    decreases |events|
  {
    if events == [] then l else Final(Apply(l, events[0]), events[1..])
  }

  /** Sequences only grow, tickets are never forgotten, and a closed channel stays closed. */
  ghost predicate Grown(l: Ledger, l': Ledger) {
    && (forall g :: Of(l, g).latest <= Of(l', g).latest && Of(l, g).acked <= Of(l', g).acked)
    && l.groups.Keys <= l'.groups.Keys
    && (forall c :: c in l.tickets ==> c in l'.tickets && l'.tickets[c] == l.tickets[c])
    && l.closed <= l'.closed
  }

  lemma {:induction false} StepKeeps(l: Ledger, e: Event)
    requires Inv(l) && Enabled(l, e)
    ensures Inv(Apply(l, e)) && Grown(l, Apply(l, e))
  {
    hide Inv, Grown, Marked, Acknowledged;
    match e {
      case Mark(c, t) => InvMarked(l, c, t); MarkGrows(l, c, t);
      case Ack(group, sequence) => InvAcknowledged(l, group, sequence); AckGrows(l, group, sequence);
    }
  }

  lemma MarkGrows(l: Ledger, c: Channel, t: Ticket)
    requires c !in l.tickets
    ensures Grown(l, Marked(l, c, t))
  {
  }

  lemma AckGrows(l: Ledger, group: Group, sequence: int)
    requires group in l.groups
    ensures Grown(l, Acknowledged(l, group, sequence))
  {
    hide Due;
  }

  lemma {:induction false} RunKeeps(l: Ledger, events: seq<Event>)
    requires Inv(l) && Runs(l, events)
    ensures Inv(Final(l, events)) && Grown(l, Final(l, events))
    decreases |events|
  {
    hide Inv, Enabled, Apply;
    if events != [] {
      StepKeeps(l, events[0]);
      RunKeeps(Apply(l, events[0]), events[1..]);
    }
  }

  predicate Idle(l: Ledger) {
    forall g :: g in l.groups ==> l.groups[g].latest <= l.groups[g].acked
  }

  /** The largest sequence of a group that was marked, and the largest that was sent with success. */
  function LargestMarked(events: seq<Event>, group: Group): int {
    if events == [] then 0
    else
      var rest := LargestMarked(events[1..], group);
      if events[0].Mark? && events[0].t.group == group && events[0].t.sequence > rest then events[0].t.sequence
      else rest
  }

  function LargestSent(events: seq<Event>, group: Group): int {
    if events == [] then 0
    else
      var rest := LargestSent(events[1..], group);
      if events[0].Ack? && events[0].group == group && events[0].sequence > rest then events[0].sequence else rest
  }

  function Max(a: int, b: int): int {
    if a < b then b else a
  }

  lemma {:induction false} SequencesFollowEvents(l: Ledger, events: seq<Event>, group: Group)
    requires Inv(l) && Runs(l, events)
    ensures Of(Final(l, events), group).latest == Max(Of(l, group).latest, LargestMarked(events, group))
    ensures Of(Final(l, events), group).acked == Max(Of(l, group).acked, LargestSent(events, group))
    decreases |events|
  {
    hide Inv, Enabled, Apply;
    BoundsHold(l, group);
    if events != [] {
      StepKeeps(l, events[0]);
      StepSequences(l, events[0], group);
      SequencesFollowEvents(Apply(l, events[0]), events[1..], group);
    }
  }

  lemma BoundsHold(l: Ledger, group: Group)
    requires Inv(l)
    ensures 0 <= Of(l, group).acked <= Of(l, group).latest
  {
    hide WaitersOk, TicketOk;
  }

  lemma StepSequences(l: Ledger, e: Event, group: Group)
    requires Inv(l) && Enabled(l, e)
    ensures Of(Apply(l, e), group).latest == if e.Mark? && e.t.group == group
            then Max(Of(l, group).latest, e.t.sequence) else Of(l, group).latest
    ensures Of(Apply(l, e), group).acked == if e.Ack? && e.group == group then Max(Of(l, group).acked, e.sequence)
            else Of(l, group).acked
  {
    BoundsHold(l, group);
    hide Inv, Due;
  }

  /** Under any interleaving of marks and acknowledgements: the latest sequence of a group is the largest
      marked one, the acknowledged sequence the largest sent one, and it never passes the latest; a ticket is
      closed exactly when its sequence is acknowledged; the flusher is idle exactly when no ticket is open. */
  lemma ReleaseProtocol(events: seq<Event>)
    requires Runs(EMPTY, events)
    ensures var l := Final(EMPTY, events);
            && (forall g :: Of(l, g).latest == LargestMarked(events, g) && Of(l, g).acked == LargestSent(events, g)
                            && 0 <= Of(l, g).acked <= Of(l, g).latest)
            && (forall c :: c in l.tickets ==>
                 (c in l.closed <==> l.tickets[c].sequence <= Of(l, l.tickets[c].group).acked))
            && (Idle(l) <==> forall c :: c in l.tickets ==> c in l.closed)
  {
    hide Runs, Final, LargestMarked, LargestSent, Idle, WaitersOk, StateOk;
    var l := Final(EMPTY, events);
    RunKeeps(EMPTY, events);
    IdleMeansClosed(l);
    forall g ensures Of(l, g).latest == LargestMarked(events, g) && Of(l, g).acked == LargestSent(events, g)
                     && 0 <= Of(l, g).acked <= Of(l, g).latest
    {
      SequencesFollowEvents(EMPTY, events, g);
      LargestNatural(events, g);
      BoundsHold(l, g);
    }
    forall c | c in l.tickets ensures c in l.closed <==> l.tickets[c].sequence <= Of(l, l.tickets[c].group).acked {
      assert TicketOk(c, l.tickets[c], Of(l, l.tickets[c].group), l.closed);
    }
  }

  lemma LargestNatural(events: seq<Event>, group: Group)
    ensures LargestMarked(events, group) >= 0 && LargestSent(events, group) >= 0
  {
  }

  lemma IdleMeansClosed(l: Ledger)
    requires Inv(l)
    ensures Idle(l) <==> forall c :: c in l.tickets ==> c in l.closed
  {
    if Idle(l) {
      forall c | c in l.tickets ensures c in l.closed {
        assert TicketOk(c, l.tickets[c], Of(l, l.tickets[c].group), l.closed);
        if l.tickets[c].group in l.groups { assert StateOk(l.groups[l.tickets[c].group]); }
      }
    }
    forall g | g in l.groups && l.groups[g].latest > l.groups[g].acked
      ensures exists c :: c in l.tickets && c !in l.closed
    {
      LatestWaits(l, g);
    }
  }

  lemma LatestWaits(l: Ledger, group: Group)
    requires Inv(l) && group in l.groups && l.groups[group].latest > l.groups[group].acked
    ensures exists c :: c in l.tickets && c !in l.closed
  {
    hide TicketOk, Distinct;
    var s := l.groups[group];
    assert StateOk(s) && WaitersOk(group, s, l.tickets, l.closed);
    var c := s.waiters[s.latest][0];
    assert c in s.waiters[s.latest];
    assert c in l.tickets && c !in l.closed;
  }

  // ----- the object

  /** What one send meets: the MarkDirty calls that arrive while the frame is on its way, and its outcome. */
  datatype Turn = Turn(arrivals: seq<Ticket>, ok: bool)

  /** A frame handed to the sender, and whether it was accepted. */
  datatype Frame = Frame(group: Group, sequence: int, ok: bool)

  /** What the `i`-th send meets; past the end of the list nothing arrives and sends succeed. */
  function TurnAt(turns: seq<Turn>, i: nat): Turn {
    if i < |turns| then turns[i] else Turn([], true)
  }

  /** What is left of the list after `n` sends. */
  function TurnsFrom(turns: seq<Turn>, n: nat): seq<Turn> {
    if n <= |turns| then turns[n..] else []
  }

  lemma NoTurnTaken(turns: seq<Turn>)
    ensures TurnsFrom(turns, 0) == turns && !SomeFailed([])
  {
  }

  /** Some send was answered by an error. */
  predicate SomeFailed(frames: seq<Frame>) {
    exists i :: 0 <= i < |frames| && !frames[i].ok
  }

  lemma OneMoreOutcome(frames: seq<Frame>, frame: Frame)
    ensures SomeFailed(frames + [frame]) <==> SomeFailed(frames) || !frame.ok
  {
    var now := frames + [frame];
    if SomeFailed(frames) {
      var i :| 0 <= i < |frames| && !frames[i].ok;
      assert !now[i].ok;
    }
    assert now[|frames|] == frame;
  }

  lemma NoneFailed(frames: seq<Frame>)
    requires !SomeFailed(frames)
    ensures forall i :: 0 <= i < |frames| ==> frames[i].ok
  {
  }

  /** The frames carry each group in `done` exactly once, with its sequence in `work`. */
  ghost predicate SentOnce(frames: seq<Frame>, work: map<Group, int>, done: set<Group>) {
    && (forall i :: 0 <= i < |frames| ==> frames[i].group in work && frames[i].sequence == work[frames[i].group])
    && (forall i, j :: 0 <= i < j < |frames| ==> frames[i].group != frames[j].group)
    && (forall g :: g in done <==> exists i :: 0 <= i < |frames| && frames[i].group == g)
  }

  /** The sender answers one send after the other. */
  predicate Answered(frames: seq<Frame>, turns: seq<Turn>) {
    forall i :: 0 <= i < |frames| ==> frames[i].ok == TurnAt(turns, i).ok
  }

  /** Every frame that was accepted is acknowledged. */
  predicate FramesAcked(l: Ledger, frames: seq<Frame>) {
    forall i :: 0 <= i < |frames| && frames[i].ok ==> Of(l, frames[i].group).acked >= frames[i].sequence
  }

  /** Nothing is acknowledged but what an accepted frame carried. */
  predicate AcksAreFrames(events: seq<Event>, frames: seq<Frame>) {
    forall e :: e in events && e.Ack? ==> Frame(e.group, e.sequence, true) in frames
  }

  /** The tickets marked in a run, in order. */
  function MarkedIn(events: seq<Event>): seq<Ticket> {
    if events == [] then []
    else MarkedIn(events[..|events| - 1]) + if events[|events| - 1].Mark? then [events[|events| - 1].t] else []
  }

  function AcceptedOf(arrivals: seq<Ticket>): seq<Ticket> {
    if arrivals == [] then []
    else
      var last := arrivals[|arrivals| - 1];
      AcceptedOf(arrivals[..|arrivals| - 1]) + if Accepted(last) then [last] else []
  }

  /** The acceptable calls that arrive during the first `n` sends, in order. */
  function ArrivedIn(turns: seq<Turn>, n: nat): seq<Ticket> {
    if n == 0 then [] else ArrivedIn(turns, n - 1) + AcceptedOf(TurnAt(turns, n - 1).arrivals)
  }

  lemma {:induction false} MarkedInConcat(a: seq<Event>, b: seq<Event>)
    ensures MarkedIn(a + b) == MarkedIn(a) + MarkedIn(b)
    decreases |b|
  {
    if b == [] {
      assert a + b == a;
    } else {
      var last := |b| - 1;
      assert (a + b)[..|a + b| - 1] == a + b[..last];
      MarkedInConcat(a, b[..last]);
    }
  }

  lemma OneMarked(events: seq<Event>, e: Event)
    ensures MarkedIn(events + [e]) == MarkedIn(events) + if e.Mark? then [e.t] else []
  {
    assert (events + [e])[..|events|] == events;
  }

  class Flusher {
    var groups: map<Group, State>
    var closed: set<Channel>
    var channels: nat
    var hasSender: bool
    var turns: seq<Turn>
    // the frames handed to the sender
    var frames: seq<Frame>
    ghost var tickets: map<Channel, Ticket>

    ghost function Value(): Ledger
      reads this
    {
      Ledger(groups, closed, tickets)
    }

    ghost predicate Valid()
      reads this
    {
      Inv(Value()) && forall c :: c in tickets ==> c < channels
    }

    constructor (hasSender: bool, turns: seq<Turn>)
      ensures Valid() && Value() == EMPTY && this.hasSender == hasSender && this.turns == turns && frames == []
    {
      groups, closed, channels, this.hasSender, this.turns, frames := map[], {}, 0, hasSender, turns, [];
      tickets := map[];
    }

    /** Closing a closed channel would panic. */
    method Close(c: Channel)
      requires c !in closed
      modifies this`closed
      ensures closed == old(closed) + {c}
    {
      closed := closed + {c};
    }

    method MarkDirty(group: Group, sequence: int) returns (ticket: Option<Channel>)
      requires Valid()
      modifies this`groups, this`closed, this`channels, this`tickets
      ensures Valid()
      ensures ticket.Some? <==> Accepted(Ticket(group, sequence))
      ensures ticket.None? ==> Value() == old(Value())
      ensures ticket.Some? ==>
                ticket.value !in old(tickets) && Value() == Marked(old(Value()), ticket.value, Ticket(group, sequence))
    {
      hide Inv;
      if sequence <= 0 || group.credentialId == "" || group.model == "" { return None; }
      var done := channels;
      channels := channels + 1;
      InvMarked(Value(), done, Ticket(group, sequence));
      ClosedAreTickets(Value());
      var state := Lookup(groups, group);
      tickets := tickets[done := Ticket(group, sequence)];
      if sequence <= state.acked {
        Close(done);
      } else {
        var waiting := if sequence in state.waiters then state.waiters[sequence] else [];
        state := state.(waiters := state.waiters[sequence := waiting + [done]]);
        if sequence > state.latest { state := state.(latest := sequence); }
        groups := groups[group := state];
      }
      return Some(done);
    }

    method CloseAll(waiting: seq<Channel>)
      requires Distinct(waiting) && forall c :: c in waiting ==> c !in closed
      modifies this`closed
      ensures closed == old(closed) + set c | c in waiting
    {
      for i := 0 to |waiting|
        invariant closed == old(closed) + set c | c in waiting[..i]
      {
        assert waiting[i] !in waiting[..i];
        assert waiting[..i + 1] == waiting[..i] + [waiting[i]];
        Close(waiting[i]);
      }
      assert waiting[..|waiting|] == waiting;
    }

    /** After a successful send: closes what waited for a sequence up to this one. */
    method CloseDue(state: State, sequence: int) returns (left: State)
      requires forall q :: q in state.waiters ==> Distinct(state.waiters[q])
      requires forall q, c :: q in state.waiters && c in state.waiters[q] ==> c !in closed
      requires forall q, p, c ::
                 q in state.waiters && p in state.waiters && c in state.waiters[q] && c in state.waiters[p] ==> q == p
      modifies this`closed
      ensures left == state.(waiters := map q | q in state.waiters && q > sequence :: state.waiters[q])
      ensures closed == old(closed) + Due(state, sequence)
    {
      left := state;
      var due := set q | q in state.waiters && q <= sequence;
      while due != {}
        invariant due <= state.waiters.Keys && forall q :: q in due ==> q <= sequence
        invariant left == state.(waiters := map q | q in state.waiters &&
                    (q > sequence || q in due) :: state.waiters[q])
        invariant forall c :: c in closed <==>
                    || c in old(closed)
                    || exists q :: q in state.waiters && q <= sequence && q !in due && c in state.waiters[q]
        decreases |due|
      {
        var waiterSequence :| waiterSequence in due;
        CloseAll(left.waiters[waiterSequence]);
        due := due - {waiterSequence};
        left := left.(waiters := left.waiters - {waiterSequence});
      }
    }

    /** A frame was accepted. */
    method Acknowledge(group: Group, sequence: int)
      requires Valid() && group in groups && sequence <= groups[group].latest
      modifies this`groups, this`closed
      ensures Valid() && Value() == Acknowledged(old(Value()), group, sequence)
    {
      hide Inv, Distinct, Due;
      InvAcknowledged(Value(), group, sequence);
      WaitersApart(Value(), group);
      var state := groups[group];
      if sequence > state.acked {
        state := state.(acked := sequence);
        assert Due(state, sequence) == Due(groups[group], sequence) by { DueIgnoresAcked(groups[group], sequence); }
        forall q, p, c | q in state.waiters && p in state.waiters && c in state.waiters[q] && c in state.waiters[p]
          ensures q == p
        {
          assert tickets[c].sequence == q && tickets[c].sequence == p;
        }
        state := CloseDue(state, sequence);
      }
      groups := groups[group := state];
      assert sequence <= old(groups[group]).acked ==> groups == old(groups);
    }

    /** The calls that arrive while a frame is on its way. */
    method Arrive(arrivals: seq<Ticket>) returns (ghost events: seq<Event>)
      requires Valid()
      modifies this`groups, this`closed, this`channels, this`tickets
      ensures Valid()
      ensures Runs(old(Value()), events) && Value() == Final(old(Value()), events)
      ensures (forall e :: e in events ==> e.Mark?) && MarkedIn(events) == AcceptedOf(arrivals)
    {
      hide Inv, Enabled, Apply, Accepted;
      events := [];
      for i := 0 to |arrivals|
        invariant Valid() && Runs(old(Value()), events) && Value() == Final(old(Value()), events)
        invariant (forall e :: e in events ==> e.Mark?) && MarkedIn(events) == AcceptedOf(arrivals[..i])
      {
        assert arrivals[..i + 1][..i] == arrivals[..i];
        assert Ticket(arrivals[i].group, arrivals[i].sequence) == arrivals[i];
        ghost var l := Value();
        var ticket := MarkDirty(arrivals[i].group, arrivals[i].sequence);
        if ticket.Some? {
          ghost var e := Mark(ticket.value, Ticket(arrivals[i].group, arrivals[i].sequence));
          MarkIsStep(l, ticket.value, Ticket(arrivals[i].group, arrivals[i].sequence));
          RunsSnoc(old(Value()), events, e);
          OneMarked(events, e);
          events := events + [e];
        }
      }
      assert arrivals[..|arrivals|] == arrivals;
    }

    /** Sends one frame: MarkDirty calls arrive before the outcome is known. */
    method Send(group: Group, sequence: int, turn: Turn) returns (ghost events: seq<Event>)
      requires Valid() && group in groups && sequence <= groups[group].latest
      modifies this`groups, this`closed, this`channels, this`tickets, this`frames
      ensures Valid() && Runs(old(Value()), events) && Value() == Final(old(Value()), events) &&
              Grown(old(Value()), Value())
      ensures frames == old(frames) + [Frame(group, sequence, turn.ok)]
      ensures forall e :: e in events && e.Ack? ==> turn.ok && e == Ack(group, sequence)
      ensures MarkedIn(events) == AcceptedOf(turn.arrivals)
      ensures turn.ok ==> Lookup(groups, group).acked >= sequence
    {
      hide Inv, Enabled, Apply, Acknowledged, Marked, Grown;
      frames := frames + [Frame(group, sequence, turn.ok)];
      events := Arrive(turn.arrivals);
      ghost var l := Value();
      RunKeeps(old(Value()), events);
      if turn.ok {
        StillBehind(old(Value()), l, group);
        AckIsStep(l, group, sequence);
        Acknowledge(group, sequence);
        RunsSnoc(old(Value()), events, Ack(group, sequence));
        OneMarked(events, Ack(group, sequence));
        events := events + [Ack(group, sequence)];
        RunKeeps(old(Value()), events);
      }
    }

    /** What the next send meets; `all` and `n`: the list at the start of the flush and the sends since. */
    method TakeTurn(ghost all: seq<Turn>, ghost n: nat) returns (turn: Turn)
      requires turns == TurnsFrom(all, n)
      modifies this`turns
      ensures turn == TurnAt(all, n) && turns == TurnsFrom(all, n + 1)
    {
      turn := Turn([], true);
      if turns != [] {
        turn, turns := turns[0], turns[1..];
      }
    }

    /** The next send of a flush that began at `l0`. */
    method SendNext(group: Group, work: map<Group, int>, ghost l0: Ledger, ghost events: seq<Event>,
            ghost all: seq<Turn>, ghost sent: seq<Frame>, ghost done: set<Group>)
      returns (ok: bool, ghost more: seq<Event>)
      requires Valid() && Inv(l0) && Flushed(l0, Value(), events, all, sent, work, done)
      requires group in work && group !in done && group in l0.groups
      requires work[group] == l0.groups[group].latest && turns == TurnsFrom(all, |sent|)
      modifies this`groups, this`closed, this`channels, this`tickets, this`frames, this`turns
      ensures Valid() && turns == TurnsFrom(all, |sent| + 1) && frames == old(frames) + [Frame(group, work[group], ok)]
      ensures Flushed(l0, Value(), events + more, all, sent + [Frame(group, work[group], ok)], work, done + {group})
    {
      hide Inv, Enabled, Apply, Acknowledged, Marked, Grown, Lookup, Flushed, TurnAt, TurnsFrom;
      ghost var l := Value();
      FlushedGrows(l0, l, events, all, sent, work, done);
      StillBehind(l0, l, group);
      var turn := TakeTurn(all, |sent|);
      more := Send(group, work[group], turn);
      ok := turn.ok;
      FlushedNext(l0, l, Value(), events, more, all, sent, Frame(group, work[group], ok), work, done);
    }

    /** One flush. MarkDirty calls arrive during sends. The result says whether a send failed. */
    method Flush() returns (failed: bool, ghost events: seq<Event>, ghost pending: map<Group, int>,
            ghost sent: seq<Frame>)
      requires Valid()
      modifies this
      ensures Valid() && hasSender == old(hasSender)
      ensures Runs(old(Value()), events) && Value() == Final(old(Value()), events)
      ensures pending == map g | g in old(groups) &&
              old(groups)[g].latest > old(groups)[g].acked :: old(groups)[g].latest
      // every group that is behind is sent exactly once, with its latest sequence at the snapshot
      ensures frames == old(frames) + sent && SentOnce(sent, pending, if hasSender then pending.Keys else {})
      // the outcomes are the sender's, and a failure of one send is reported and stops no other
      ensures Answered(sent, old(turns)) && (failed <==> SomeFailed(sent))
      ensures FramesAcked(Value(), sent) && AcksAreFrames(events, sent)
      // every call that arrived meanwhile is recorded
      ensures MarkedIn(events) == ArrivedIn(old(turns), |sent|)
      // without failures everything that was behind at the snapshot has been acknowledged
      ensures hasSender && !failed ==> forall g :: g in pending ==> Lookup(groups, g).acked >= pending[g]
    {
      hide Inv, Enabled, Apply, Acknowledged, Marked, Grown, Lookup, Flushed, SomeFailed, TurnAt, TurnsFrom, Runs,
           Final, SentOnce, FramesAcked, AcksAreFrames, MarkedIn, Answered, ArrivedIn;
      events, sent := [], [];
      var work := map g | g in groups && groups[g].latest > groups[g].acked :: groups[g].latest;
      pending := work;
      failed := false;
      FlushBegins(Value(), turns, work);
      NoTurnTaken(turns);
      if !hasSender {
        FlushedParts(Value(), Value(), [], turns, [], work, {});
        return;
      }
      var todo := work.Keys;
      assert work.Keys - todo == {};
      while todo != {}
        invariant todo <= work.Keys && Valid() && hasSender == old(hasSender) && frames == old(frames) + sent
        invariant Flushed(old(Value()), Value(), events, old(turns), sent, work, work.Keys - todo)
        invariant (failed <==> SomeFailed(sent)) && turns == TurnsFrom(old(turns), |sent|)
        decreases |todo|
      {
        var group :| group in todo;
        ghost var done, more := work.Keys - todo, [];
        var ok;
        ok, more := SendNext(group, work, old(Value()), events, old(turns), sent, done);
        failed := failed || !ok;
        OneMoreOutcome(sent, Frame(group, work[group], ok));
        todo := todo - {group};
        assert work.Keys - todo == done + {group};
        events, sent := events + more, sent + [Frame(group, work[group], ok)];
      }
      assert work.Keys - {} == work.Keys;
      FlushedParts(old(Value()), Value(), events, old(turns), sent, work, work.Keys);
      if !failed {
        NoneFailed(sent);
        AllAcked(Value(), work, sent);
      }
    }

    method IsIdle() returns (idle: bool)
      requires Valid()
      ensures idle <==> Idle(Value())
      ensures idle <==> forall c :: c in tickets ==> c in closed
    {
      hide Inv;
      IdleMeansClosed(Value());
      var todo := groups.Keys;
      while todo != {}
        invariant todo <= groups.Keys
        invariant forall g :: g in groups && g !in todo ==> groups[g].latest <= groups[g].acked
        decreases |todo|
      {
        var group :| group in todo;
        if groups[group].latest > groups[group].acked { return false; }
        todo := todo - {group};
      }
      return true;
    }
  }

  lemma ClosedAreTickets(l: Ledger)
    requires Inv(l)
    ensures l.closed <= l.tickets.Keys
  {
  }

  lemma WaitersApart(l: Ledger, group: Group)
    requires Inv(l) && group in l.groups
    ensures var w := l.groups[group].waiters;
            && (forall q :: q in w ==> Distinct(w[q]))
            && (forall q, c :: q in w && c in w[q] ==> c !in l.closed && c in l.tickets && l.tickets[c].sequence == q)
  {
    hide TicketOk;
    assert StateOk(l.groups[group]) && WaitersOk(group, l.groups[group], l.tickets, l.closed);
  }

  lemma DueIgnoresAcked(s: State, sequence: int)
    ensures Due(s.(acked := sequence), sequence) == Due(s, sequence)
  {
  }

  lemma MarkIsStep(l: Ledger, c: Channel, t: Ticket)
    requires c !in l.tickets && Accepted(t)
    ensures Enabled(l, Mark(c, t)) && Apply(l, Mark(c, t)) == Marked(l, c, t)
  {
  }

  lemma AckIsStep(l: Ledger, group: Group, sequence: int)
    requires Inv(l) && group in l.groups && sequence <= l.groups[group].latest
    ensures Enabled(l, Ack(group, sequence)) && Apply(l, Ack(group, sequence)) == Acknowledged(l, group, sequence)
    ensures group in Acknowledged(l, group, sequence).groups &&
            Acknowledged(l, group, sequence).groups[group].acked >= sequence
  {
  }

  lemma StillBehind(l: Ledger, l': Ledger, group: Group)
    requires Grown(l, l') && group in l.groups
    ensures group in l'.groups && l.groups[group].latest <= l'.groups[group].latest
  {
    assert Of(l, group).latest <= Of(l', group).latest;
  }

  lemma NothingSent(l: Ledger, work: map<Group, int>)
    ensures SentOnce([], work, {}) && FramesAcked(l, []) && AcksAreFrames([], []) && MarkedIn([]) == []
  {
  }

  lemma OneMoreFrame(l: Ledger, l': Ledger, events: seq<Event>, more: seq<Event>, sent: seq<Frame>, frame: Frame,
          work: map<Group, int>, done: set<Group>)
    requires Grown(l, l') && SentOnce(sent, work, done) && FramesAcked(l, sent) && AcksAreFrames(events, sent)
    requires frame.group in work && frame.group !in done && frame.sequence == work[frame.group]
    requires frame.ok ==> Of(l', frame.group).acked >= frame.sequence
    requires forall e :: e in more && e.Ack? ==> frame.ok && e == Ack(frame.group, frame.sequence)
    ensures SentOnce(sent + [frame], work, done + {frame.group})
    ensures FramesAcked(l', sent + [frame]) && AcksAreFrames(events + more, sent + [frame])
  {
    var now := sent + [frame];
    forall i | 0 <= i < |now| && now[i].ok ensures Of(l', now[i].group).acked >= now[i].sequence {
      if i < |sent| { assert Of(l, sent[i].group).acked <= Of(l', sent[i].group).acked; }
    }
    forall g | g in done + {frame.group} ensures exists i :: 0 <= i < |now| && now[i].group == g {
      if g == frame.group {
        assert now[|sent|].group == g;
      } else {
        var i :| 0 <= i < |sent| && sent[i].group == g;
        assert now[i].group == g;
      }
    }
    forall i | 0 <= i < |now| ensures now[i].group in done + {frame.group} {
      if i < |sent| { assert sent[i].group in done; }
    }
    assert frame == now[|sent|] && forall f :: f in sent ==> f in now;
  }

  /** How far a flush has got: it has sent the groups in `done`. */
  ghost predicate Flushed(l0: Ledger, l: Ledger, events: seq<Event>, turns: seq<Turn>, sent: seq<Frame>,
          work: map<Group, int>, done: set<Group>) {
    && Runs(l0, events) && l == Final(l0, events) && Grown(l0, l)
    && SentOnce(sent, work, done) && Answered(sent, turns) && FramesAcked(l, sent) && AcksAreFrames(events, sent)
    && MarkedIn(events) == ArrivedIn(turns, |sent|)
  }

  lemma FlushBegins(l: Ledger, turns: seq<Turn>, work: map<Group, int>)
    requires Inv(l)
    ensures Flushed(l, l, [], turns, [], work, {})
  {
    hide Inv, Grown;
    NothingSent(l, work);
    RunKeeps(l, []);
  }

  lemma FlushedGrows(l0: Ledger, l: Ledger, events: seq<Event>, turns: seq<Turn>, sent: seq<Frame>,
          work: map<Group, int>, done: set<Group>)
    requires Flushed(l0, l, events, turns, sent, work, done)
    ensures Grown(l0, l)
  {
  }

  lemma FlushedParts(l0: Ledger, l: Ledger, events: seq<Event>, turns: seq<Turn>, sent: seq<Frame>,
          work: map<Group, int>, done: set<Group>)
    requires Flushed(l0, l, events, turns, sent, work, done)
    ensures Runs(l0, events) && l == Final(l0, events)
    ensures SentOnce(sent, work, done) && Answered(sent, turns) && FramesAcked(l, sent) && AcksAreFrames(events, sent)
    ensures MarkedIn(events) == ArrivedIn(turns, |sent|)
  {
  }

  lemma FlushedNext(l0: Ledger, l: Ledger, l': Ledger, events: seq<Event>, more: seq<Event>, turns: seq<Turn>,
          sent: seq<Frame>, frame: Frame, work: map<Group, int>, done: set<Group>)
    requires Inv(l0) && Flushed(l0, l, events, turns, sent, work, done)
    requires Runs(l, more) && l' == Final(l, more) && Grown(l, l')
    requires frame.group in work && frame.group !in done && frame.sequence == work[frame.group]
    requires frame.ok == TurnAt(turns, |sent|).ok && MarkedIn(more) == AcceptedOf(TurnAt(turns, |sent|).arrivals)
    requires frame.ok ==> Of(l', frame.group).acked >= frame.sequence
    requires forall e :: e in more && e.Ack? ==> frame.ok && e == Ack(frame.group, frame.sequence)
    ensures Flushed(l0, l', events + more, turns, sent + [frame], work, done + {frame.group})
  {
    hide Inv, Runs, Final, Grown, SentOnce, FramesAcked, AcksAreFrames, MarkedIn, TurnAt;
    OneMoreFrame(l, l', events, more, sent, frame, work, done);
    RunsConcat(l0, events, more);
    RunKeeps(l0, events + more);
    MarkedInConcat(events, more);
  }

  lemma AllAcked(l: Ledger, work: map<Group, int>, sent: seq<Frame>)
    requires SentOnce(sent, work, work.Keys) && FramesAcked(l, sent) && forall i :: 0 <= i < |sent| ==> sent[i].ok
    ensures forall g :: g in work ==> Of(l, g).acked >= work[g]
  {
    hide Lookup;
    forall g | g in work ensures Of(l, g).acked >= work[g] {
      var i :| 0 <= i < |sent| && sent[i].group == g;
    }
  }

  lemma {:induction false} RunsConcat(l: Ledger, a: seq<Event>, b: seq<Event>)
    requires Runs(l, a)
    ensures Runs(l, a + b) <==> Runs(Final(l, a), b)
    ensures Final(l, a + b) == Final(Final(l, a), b)
    decreases |a|
  {
    if a == [] {
      assert a + b == b;
    } else {
      assert (a + b)[0] == a[0] && (a + b)[1..] == a[1..] + b;
      RunsConcat(Apply(l, a[0]), a[1..], b);
    }
  }

  lemma RunsSnoc(l: Ledger, events: seq<Event>, e: Event)
    requires Runs(l, events) && Enabled(Final(l, events), e)
    ensures Runs(l, events + [e]) && Final(l, events + [e]) == Apply(Final(l, events), e)
  {
    RunsConcat(l, events, [e]);
    assert [e][1..] == [];
  }

  // ----- the delay between attempts

  const MAX_DURATION: int := 0x7fff_ffff_ffff_ffff
  const DEFAULT_FLUSH_INTERVAL: int := 250_000_000

  datatype Timings = Timings(flushInterval: int, maxBackoff: int)

  /** 64-bit signed wrap-around. */
  function Wrap(n: int): int {
    (n + MAX_DURATION + 1) % (2 * (MAX_DURATION + 1)) - MAX_DURATION - 1
  }

  function Normalised(t: Timings): (r: Timings)
    ensures 0 < r.flushInterval <= r.maxBackoff
  {
    var flush := if t.flushInterval <= 0 then DEFAULT_FLUSH_INTERVAL else t.flushInterval;
    Timings(flush, if t.maxBackoff < flush then flush else t.maxBackoff)
  }

  /** Timings in order are used as they are; a missing flush interval is the default, and a maximum below the
      flush interval is raised to it. */
  lemma ConfiguredTimings(t: Timings)
    ensures 0 < t.flushInterval <= t.maxBackoff ==> Normalised(t) == t
    ensures t.flushInterval > 0 ==> NextDelay(t, 0, false).0 == t.flushInterval
    ensures t.flushInterval <= 0 ==> NextDelay(t, 0, false).0 == 250_000_000
    ensures Normalised(t).maxBackoff == Max(t.maxBackoff, NextDelay(t, 0, false).0)
  {
  }

  /** The delay after an attempt, and whether the flusher backs off. */
  function NextDelay(t: Timings, delay: int, failed: bool): (int, bool) {
    var n := Normalised(t);
    if !failed then (n.flushInterval, false)
    else
      var doubled := Wrap(delay * 2);
      var raised := if doubled < n.flushInterval then n.flushInterval else doubled;
      (if raised > n.maxBackoff then n.maxBackoff else raised, true)
  }

  /** Whatever the delay was before and even if doubling wraps, the delay stays within its bounds. */
  lemma DelayWithinBounds(t: Timings, delay: int, failed: bool)
    ensures var n := Normalised(t); n.flushInterval <= NextDelay(t, delay, failed).0 <= n.maxBackoff
    ensures NextDelay(t, delay, failed).1 == failed
  {
  }

  function Pow2(k: nat): nat {
    if k == 0 then 1 else 2 * Pow2(k - 1)
  }

  function Min(a: int, b: int): int {
    if a < b then a else b
  }

  /** The delay after `k` failures in a row under fixed timings. */
  function DelayAfter(t: Timings, k: nat): int {
    if k == 0 then Normalised(t).flushInterval else NextDelay(t, DelayAfter(t, k - 1), true).0
  }

  predicate Exponential(t: Timings, k: nat) {
    DelayAfter(t, k) == Min(Normalised(t).flushInterval * Pow2(k), Normalised(t).maxBackoff)
  }

  lemma NextDoubles(t: Timings, delay: int)
    requires var n := Normalised(t); n.flushInterval <= delay <= n.maxBackoff
    requires var n := Normalised(t); n.maxBackoff < 0x4000_0000_0000_0000 || n.flushInterval == n.maxBackoff
    ensures NextDelay(t, delay, true).0 == Min(2 * delay, Normalised(t).maxBackoff)
  {
    hide Normalised;
    if Normalised(t).maxBackoff >= 0x4000_0000_0000_0000 { DelayWithinBounds(t, delay, true); }
  }

  lemma {:induction false} DoublingIsExponential(t: Timings, k: nat)
    requires var n := Normalised(t); n.maxBackoff < 0x4000_0000_0000_0000 || n.flushInterval == n.maxBackoff
    ensures Exponential(t, k) && Normalised(t).flushInterval <= DelayAfter(t, k) <= Normalised(t).maxBackoff
  {
    hide Normalised, NextDelay;
    var f := Normalised(t).flushInterval;
    if k > 0 {
      DoublingIsExponential(t, k - 1);
      NextDoubles(t, DelayAfter(t, k - 1));
      DelayWithinBounds(t, DelayAfter(t, k - 1), true);
      TwiceTheProduct(f, Pow2(k - 1));
    } else {
      assert f * Pow2(0) == f;
    }
  }

  lemma TwiceTheProduct(f: int, p: int)
    ensures f * (2 * p) == 2 * (f * p)
  {
  }

  lemma {:induction false} Pow2Exceeds(k: nat)
    ensures Pow2(k) > k
  {
    if k > 0 { Pow2Exceeds(k - 1); }
  }

  lemma ProductExceeds(f: int, p: int, m: int)
    requires f > 0 && p >= m > 0
    ensures f * p >= m
  {
    assert f * p >= 1 * p;
  }

  /** The delay after k failures in a row is min(F * 2^k, M) for every k exactly when doubling M cannot wrap
      or the two bounds are equal; otherwise the delay falls back to F at some point. */
  lemma ExponentialBackoff(t: Timings)
    requires t.maxBackoff <= MAX_DURATION && t.flushInterval <= MAX_DURATION
    ensures (forall k: nat :: Exponential(t, k)) <==>
            var n := Normalised(t); n.maxBackoff < 0x4000_0000_0000_0000 || n.flushInterval == n.maxBackoff
  {
    hide Exponential;
    var n := Normalised(t);
    if n.maxBackoff < 0x4000_0000_0000_0000 || n.flushInterval == n.maxBackoff {
      forall k: nat ensures Exponential(t, k) { DoublingIsExponential(t, k); }
    } else {
      WrapBreaksBackoff(t);
    }
  }

  lemma WrapBreaksBackoff(t: Timings)
    requires t.maxBackoff <= MAX_DURATION && t.flushInterval <= MAX_DURATION
    requires var n := Normalised(t); n.maxBackoff >= 0x4000_0000_0000_0000 && n.flushInterval != n.maxBackoff
    ensures exists k: nat :: !Exponential(t, k)
  {
    var n := Normalised(t);
    var k := n.maxBackoff;
    Saturated(n, k);
    Saturated(n, k + 1);
    WrapsToFlush(t);
    hide Normalised, NextDelay, Pow2;
    assert DelayAfter(t, k + 1) == NextDelay(t, DelayAfter(t, k), true).0;
    assert !Exponential(t, k) || !Exponential(t, k + 1);
  }

  lemma Saturated(n: Timings, k: nat)
    requires 0 < n.flushInterval && 0 < n.maxBackoff <= k
    ensures Min(n.flushInterval * Pow2(k), n.maxBackoff) == n.maxBackoff
  {
    Pow2Exceeds(k);
    ProductExceeds(n.flushInterval, Pow2(k), n.maxBackoff);
  }

  lemma WrapsToFlush(t: Timings)
    requires t.maxBackoff <= MAX_DURATION && t.flushInterval <= MAX_DURATION
    requires Normalised(t).maxBackoff >= 0x4000_0000_0000_0000
    ensures NextDelay(t, Normalised(t).maxBackoff, true).0 == Normalised(t).flushInterval
  {
  }
}
