/** One poller, many WebSocket clients (backend/app/services/event_broadcaster.py and
    `events_websocket` in backend/app/main.py). Every method here is one step between two
    suspension points of the event loop, so steps of different clients interleave freely. */
module Broadcast {
  import opened Wrappers

  datatype PollState = PollState(enabled: bool, lastEventId: int)

  /** `asyncio.Queue(maxsize=1)`. */
  class Slot {
    var item: Option<PollState>

    constructor ()
      ensures item == None
    {
      item := None;
    }
  }

  class Broadcaster {
    var state: PollState
    var ready: bool
    var subscribers: set<Slot>
    /** Whether a poll loop task exists and has not ended. */
    var polling: bool

    constructor ()
      ensures !ready && subscribers == {} && !polling
    {
      state, ready, subscribers, polling := PollState(false, 0), false, {}, false;
    }

    /** `_broadcast`: a full slot is emptied first, so putting never waits for a client. */
    method Publish(s: PollState)
      modifies subscribers
      ensures forall q :: q in subscribers ==> q.item == Some(s)
    {
      var rest := subscribers;
      while rest != {}
        invariant rest <= subscribers
        invariant forall q :: q in subscribers - rest ==> q.item == Some(s)
        decreases rest
      {
        var q :| q in rest;
        if q.item.Some? {
          q.item := None;
        }
        q.item := Some(s);
        rest := rest - {q};
      }
    }

    /** `_poll_once` with what the database returned: the first poll and an unchanged one notify nobody. */
    method Poll(reading: PollState)
      modifies this`state, this`ready, subscribers
      ensures state == reading && ready
      ensures forall q :: q in subscribers ==>
                q.item == if old(ready) && reading != old(state) then Some(reading) else old(q.item)
    {
      var changed := ready && reading != state;
      state := reading;
      ready := true;
      if changed {
        Publish(reading);
      }
    }

    /** `start`: polls once and starts the loop, unless one is running. */
    method Start(reading: PollState)
      modifies this`state, this`ready, this`polling, subscribers
      ensures polling
      ensures old(polling) ==> state == old(state) && ready == old(ready) && forall q :: q in subscribers ==> q.item == old(q.item)
      ensures !old(polling) ==>
                && state == reading && ready
                && forall q :: q in subscribers ==>
                     q.item == if old(ready) && reading != old(state) then Some(reading) else old(q.item)
    {
      if polling {
        return;
      }
      Poll(reading);
      polling := true;
    }

    method Stop()
      modifies this`polling
      ensures !polling
    {
      polling := false;
    }

    method Subscribe() returns (q: Slot)
      modifies this`subscribers
      ensures fresh(q) && q.item == None && subscribers == old(subscribers) + {q}
    {
      q := new Slot();
      subscribers := subscribers + {q};
    }

    method Unsubscribe(q: Slot)
      modifies this`subscribers
      ensures subscribers == old(subscribers) - {q}
    {
      subscribers := subscribers - {q};
    }
  }

  /** Connecting: subscribed, the state not yet read. Accepting: read, but still in front of the loop,
      whose `finally` alone unsubscribes. Open: in the loop. Closed: unsubscribed. Lost: gone before the
      loop, by an exception that no handler meets. */
  datatype Phase = Connecting | Accepting | Open | Closed | Lost

  /** One `events_websocket` call: `taken` is the finished result of its pending `get`. */
  class Client {
    const slot: Slot
    var phase: Phase
    var known: PollState
    var taken: Option<PollState>
    var lastSeenId: int
    /** The event ids sent to the browser. */
    var sent: seq<int>

    /** The last of what the client knows, has taken, and has queued. */
    ghost function Latest(): PollState
      reads this, slot
    {
      if slot.item.Some? then slot.item.value else if taken.Some? then taken.value else known
    }

    ghost predicate Sound()
      reads this
    {
      && sent != [] && sent[|sent| - 1] == lastSeenId
      && (forall i, j :: 0 <= i < j < |sent| ==> sent[i] < sent[j])
      && known.enabled && known.lastEventId <= lastSeenId
    }

    /** It has read the state and not ended. */
    ghost predicate Listening()
      reads this
    {
      phase == Accepting || phase == Open
    }

    /** The pending `get` takes what is queued; the last of what the client holds stays the last. */
    method Take()
      requires taken == None && slot.item.Some?
      modifies this`taken, slot
      ensures taken == old(slot.item) && slot.item == None && Latest() == old(Latest())
    {
      taken := slot.item;
      slot.item := None;
    }

    /** What the loop does with a new enabled state: an event id above the last seen one is sent on. */
    method Report(s: PollState)
      requires Sound() && s.enabled
      modifies this`known, this`lastSeenId, this`sent
      ensures Sound() && known == s
      ensures lastSeenId == if s.lastEventId > old(lastSeenId) then s.lastEventId else old(lastSeenId)
      ensures sent == old(sent) + (if lastSeenId > old(lastSeenId) then [lastSeenId] else [])
    {
      known := s;
      if s.lastEventId > lastSeenId {
        lastSeenId := s.lastEventId;
        sent := sent + [lastSeenId];
      }
    }

    constructor (slot: Slot)
      ensures this.slot == slot && phase == Connecting && taken == None
    {
      this.slot := slot;
      phase, known, taken, lastSeenId, sent := Connecting, PollState(false, 0), None, 0, [];
    }
  }

  ghost function Slots(clients: set<Client>): set<Slot> {
    set c | c in clients :: c.slot
  }

  /** What holds between any two steps: every client that has read the state and is still there
      will end up with the broadcaster's current state by what it already has; and every slot is
      subscribed until its client is closed. */
  ghost predicate Inv(b: Broadcaster, clients: set<Client>)
    reads b, clients, Slots(clients)
  {
    && (forall c, d :: c in clients && d in clients && c != d ==> c.slot != d.slot)
    && (forall c :: c in clients ==> (c.slot in b.subscribers <==> c.phase != Closed))
    && (forall c :: c in clients && c.phase == Connecting ==>
          c.taken == None && (c.slot.item.Some? ==> b.ready && c.slot.item.value == b.state))
    && (forall c :: c in clients && c.phase == Accepting ==> c.taken == None && c.known.enabled)
    && (forall c :: c in clients && c.phase == Open ==> c.Sound())
    && (forall c :: c in clients && c.Listening() ==> b.ready && c.Latest() == b.state)
  }

  /** An open client with nothing taken and nothing queued knows the current state, and has
      reported at least its last event id. */
  lemma DrainedClientIsCurrent(b: Broadcaster, clients: set<Client>, c: Client)
    requires Inv(b, clients) && c in clients && c.phase == Open
    requires c.taken == None && c.slot.item == None
    ensures c.known == b.state && c.lastSeenId >= b.state.lastEventId
  {
    assert c.Latest() == b.state && c.Sound();
  }

  // ---- The steps -------------------------------------------------------------------------------

  method PollStep(b: Broadcaster, ghost clients: set<Client>, reading: PollState)
    requires Inv(b, clients)
    modifies b, b.subscribers
    ensures Inv(b, clients)
    ensures b.state == reading && b.ready && b.subscribers == old(b.subscribers)
  {
    b.Poll(reading);
  }

  method StartStep(b: Broadcaster, ghost clients: set<Client>, reading: PollState)
    requires Inv(b, clients)
    modifies b, b.subscribers
    ensures Inv(b, clients)
    ensures b.polling && b.subscribers == old(b.subscribers)
  {
    b.Start(reading);
  }

  method StopStep(b: Broadcaster, ghost clients: set<Client>)
    requires Inv(b, clients)
    modifies b`polling
    ensures Inv(b, clients) && !b.polling
  {
    b.Stop();
  }

  method ConnectStep(b: Broadcaster, ghost clients: set<Client>) returns (c: Client, ghost clients': set<Client>)
    requires Inv(b, clients)
    modifies b`subscribers
    ensures fresh(c) && clients' == clients + {c} && Inv(b, clients')
    ensures c.phase == Connecting
  {
    var q := b.Subscribe();
    c := new Client(q);
    clients' := clients + {c};
  }

  /** The initial read: refused while events are disabled. */
  method ReadStateStep(b: Broadcaster, ghost clients: set<Client>, c: Client)
    requires Inv(b, clients) && c in clients && c.phase == Connecting && b.ready
    modifies b`subscribers, c
    ensures Inv(b, clients)
    ensures b.state.enabled ==> c.phase == Accepting && c.known == b.state
    ensures !b.state.enabled ==> c.phase == Closed
    ensures b.subscribers == old(b.subscribers) - (if b.state.enabled then {} else {c.slot}) && c.sent == old(c.sent)
  {
    var state := b.state;
    if !state.enabled {
      b.Unsubscribe(c.slot);
      c.phase := Closed;
      return;
    }
    c.phase, c.known := Accepting, state;
  }

  /** The connection is accepted and told the id that was read; the loop begins. */
  method AcceptStep(b: Broadcaster, ghost clients: set<Client>, c: Client)
    requires Inv(b, clients) && c in clients && c.phase == Accepting
    modifies c
    ensures Inv(b, clients)
    ensures c.phase == Open && c.known == old(c.known) && c.sent == [c.known.lastEventId]
  {
    c.lastSeenId := c.known.lastEventId;
    c.sent := [c.lastSeenId];
    c.phase := Open;
  }

  /** The connection breaks before the loop: while the state is awaited, accepted or first told. Nothing
      unsubscribes the slot. */
  method LoseStep(b: Broadcaster, ghost clients: set<Client>, c: Client)
    requires Inv(b, clients) && c in clients && (c.phase == Connecting || c.phase == Accepting)
    modifies c`phase
    ensures Inv(b, clients)
    ensures c.phase == Lost && c.slot in b.subscribers
  {
    c.phase := Lost;
  }

  /** The pending `get` finishes with the queued item. */
  method TakeStep(b: Broadcaster, ghost clients: set<Client>, c: Client)
    requires Inv(b, clients) && c in clients && c.phase == Open
    requires c.taken == None && c.slot.item.Some?
    modifies c`taken, c.slot
    ensures Inv(b, clients)
    ensures c.taken == old(c.slot.item) && c.slot.item == None
  {
    c.Take();
  }

  /** The client's loop handles the item it has taken. */
  method HandleStep(b: Broadcaster, ghost clients: set<Client>, c: Client)
    requires Inv(b, clients) && c in clients && c.phase == Open && c.taken.Some?
    modifies b`subscribers, c
    ensures Inv(b, clients)
    ensures c.taken == None && c.lastSeenId >= old(c.lastSeenId)
    ensures !old(c.taken).value.enabled ==>
              c.phase == Closed && c.sent == old(c.sent) && b.subscribers == old(b.subscribers) - {c.slot}
    ensures old(c.taken).value.enabled ==>
              && c.phase == Open && c.known == old(c.taken).value && b.subscribers == old(b.subscribers)
              && c.sent == old(c.sent) + (if c.lastSeenId > old(c.lastSeenId) then [c.lastSeenId] else [])
              && c.lastSeenId == if c.known.lastEventId > old(c.lastSeenId) then c.known.lastEventId else old(c.lastSeenId)
  {
    var state := c.taken.value;
    c.taken := None;
    if !state.enabled {
      b.Unsubscribe(c.slot);
      c.phase := Closed;
      return;
    }
    c.Report(state);
    assert c.Latest() == b.state;
  }

  /** The connection breaks inside the loop, whose `finally` unsubscribes. */
  method DisconnectStep(b: Broadcaster, ghost clients: set<Client>, c: Client)
    requires Inv(b, clients) && c in clients && c.phase == Open
    modifies b`subscribers, c`phase
    ensures Inv(b, clients)
    ensures c.phase == Closed && b.subscribers == old(b.subscribers) - {c.slot}
  {
    b.Unsubscribe(c.slot);
    c.phase := Closed;
  }

  // ---- The slot of a client that is gone -----------------------------------------------------------

  /** How a client can end. */
  datatype Ending = Refused | BrokenBeforeLoop | DisabledInLoop | BrokenInLoop

  /** From which phases. */
  predicate EndsFrom(ending: Ending, phase: Phase) {
    match ending
    case Refused => phase == Connecting
    case BrokenBeforeLoop => phase == Connecting || phase == Accepting
    case DisabledInLoop => phase == Open
    case BrokenInLoop => phase == Open
  }

  /** Ending a client, by the step that does it. */
  method EndStep(b: Broadcaster, ghost clients: set<Client>, c: Client, ending: Ending)
    requires Inv(b, clients) && c in clients && EndsFrom(ending, c.phase)
    requires ending.Refused? ==> b.ready && !b.state.enabled
    requires ending.DisabledInLoop? ==> c.taken.Some? && !c.taken.value.enabled
    modifies b`subscribers, c
    ensures Inv(b, clients)
    ensures c.phase == Closed || c.phase == Lost
    ensures c.slot !in b.subscribers <==> !ending.BrokenBeforeLoop?
    ensures b.subscribers == old(b.subscribers) - (if ending.BrokenBeforeLoop? then {} else {c.slot})
  {
    match ending {
      case Refused => ReadStateStep(b, clients, c);
      case BrokenBeforeLoop => LoseStep(b, clients, c);
      case DisabledInLoop => HandleStep(b, clients, c);
      case BrokenInLoop => DisconnectStep(b, clients, c);
    }
  }

  /** At any time a slot is free if and only if its client is closed; so that of a client lost before
      the loop stays subscribed, since no step takes a lost client on. */
  lemma SlotIsFreeIff(b: Broadcaster, clients: set<Client>, c: Client)
    requires Inv(b, clients) && c in clients
    ensures c.slot !in b.subscribers <==> c.phase == Closed
    ensures c.phase == Lost ==> c.slot in b.subscribers && forall ending :: !EndsFrom(ending, c.phase)
  {
  }
}
