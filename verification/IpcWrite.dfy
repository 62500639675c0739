/** The write queue of an IPC client, on values: what `ipc_send_reply` and
    `ipc_client_handle_writable` do to it, and what every schedule of writes delivers. */
module IpcWrite {
  import opened IpcFrame
  import opened IpcRead

  const INITIAL_CAPACITY := 128
  const MAX_CAPACITY := 4_000_000

  /** `queue` is the used part of the write buffer, `capacity` its size and `source` tells whether
      a writable event source is registered. `wire` is what the kernel took so far, `accepted`
      the messages the queue took. */
  datatype WriteState = WriteState(
    connected: bool, queue: Bytes, capacity: nat, source: bool, wire: Bytes, accepted: seq<Message>)

  const FRESH := WriteState(true, [], INITIAL_CAPACITY, false, [], [])

  function Disconnected(s: WriteState): WriteState {
    s.(connected := false, queue := [], source := false)
  }

  /** The doubling loop: the first capacity above `need`. */
  function Grown(capacity: nat, need: nat): (c: nat)
    requires capacity > 0
    ensures need < c
    decreases need - capacity
  {
    if need >= capacity then Grown(2 * capacity, need) else capacity
  }

  function Need(s: WriteState, m: Message): nat {
    |s.queue| + HEADER_SIZE + |m.payload|
  }

  function Send(s: WriteState, m: Message): WriteState
    requires s.connected ==> s.capacity > 0
  {
    if !s.connected then s
    else
      var capacity := Grown(s.capacity, Need(s, m));
      if capacity > MAX_CAPACITY then Disconnected(s.(capacity := capacity))
      else s.(capacity := capacity, queue := s.queue + Encode(m), source := true, accepted := s.accepted + [m])
  }

  /** What a call of the writable handler meets: an error or hang-up, a socket that takes nothing
      now, or one that takes up to `n` bytes. */
  datatype Outcome = Broken | WouldBlock | Takes(n: nat)

  function Writable(s: WriteState, o: Outcome): WriteState {
    if !s.connected then s
    else match o
      case Broken => Disconnected(s)
      case WouldBlock => s
      case Takes(n) =>
        if s.queue == [] then s
        else
          var k := if n < |s.queue| then n else |s.queue|;
          s.(wire := s.wire + s.queue[..k], queue := s.queue[k..], source := s.source && s.queue[k..] != [])
  }

  /** Capacities the doubling can reach. */
  function Doubled(k: nat): nat {
    if k == 0 then INITIAL_CAPACITY else 2 * Doubled(k - 1)
  }

  ghost predicate IsCapacity(c: nat) {
    exists k :: c == Doubled(k)
  }

  /** The invariant. Bytes taken by the kernel followed by those queued are the accepted messages
      in order; a writable source exists exactly while something is queued. */
  ghost predicate Inv(s: WriteState) {
    if s.connected then
      && IsCapacity(s.capacity) && |s.queue| < s.capacity <= MAX_CAPACITY
      && (s.source <==> s.queue != [])
      && s.wire + s.queue == EncodeAll(s.accepted)
    else
      !s.source && s.wire <= EncodeAll(s.accepted)
  }

  lemma {:induction false} DoubledMonotonic(j: nat, k: nat)
    requires j <= k
    ensures 0 < Doubled(j) <= Doubled(k)
  {
    if j < k { DoubledMonotonic(j, k - 1); }
    else if k > 0 { DoubledMonotonic(k - 1, k - 1); }
  }

  /** 4e6 lies strictly between two capacities, so the real limit is 2^21. */
  lemma CapacityLimit(c: nat)
    requires IsCapacity(c)
    ensures 0 < c && (c <= MAX_CAPACITY <==> c <= 0x20_0000) && (c > MAX_CAPACITY ==> c >= 0x40_0000)
  {
    var k: nat :| c == Doubled(k);
    assert Doubled(4) == 0x800 && Doubled(8) == 0x8000 && Doubled(12) == 0x8_0000 && Doubled(14) == 0x20_0000;
    if k <= 14 { DoubledMonotonic(0, k); DoubledMonotonic(k, 14); } else { DoubledMonotonic(15, k); }
  }

  lemma {:induction false} GrownIsCapacity(capacity: nat, need: nat)
    requires IsCapacity(capacity) && capacity > 0
    ensures IsCapacity(Grown(capacity, need))
    ensures Grown(capacity, need) == capacity || Grown(capacity, need) <= 2 * need
    decreases need - capacity
  {
    if need >= capacity {
      var k: nat :| capacity == Doubled(k);
      assert 2 * capacity == Doubled(k + 1);
      GrownIsCapacity(2 * capacity, need);
    }
  }

  /** The queue would stay below 2^21 bytes. */
  predicate Fits(s: WriteState, m: Message) {
    |s.queue + Encode(m)| < 0x20_0000
  }

  /** A message is refused, and its client dropped, exactly when it would not leave the queue
      below 2^21 bytes. */
  lemma SendRefusedIff(s: WriteState, m: Message)
    requires Inv(s) && s.connected
    ensures s.capacity > 0
    ensures Send(s, m).connected <==> Fits(s, m)
  {
    CapacityLimit(s.capacity);
    GrownIsCapacity(s.capacity, Need(s, m));
    CapacityLimit(Grown(s.capacity, Need(s, m)));
  }

  lemma SendKeepsInv(s: WriteState, m: Message)
    requires Inv(s)
    ensures s.connected ==> s.capacity > 0
    ensures Inv(Send(s, m))
  {
    if s.connected {
      CapacityLimit(s.capacity);
      GrownIsCapacity(s.capacity, Need(s, m));
      EncodeAllSnoc(s.accepted, m);
      assert s.wire + (s.queue + Encode(m)) == (s.wire + s.queue) + Encode(m);
    }
  }

  lemma WritableKeepsInv(s: WriteState, o: Outcome)
    requires Inv(s)
    ensures Inv(Writable(s, o)) && Writable(s, o).accepted == s.accepted
  {
    if s.connected && o.Takes? && s.queue != [] {
      var k := if o.n < |s.queue| then o.n else |s.queue|;
      assert (s.wire + s.queue[..k]) + s.queue[k..] == s.wire + s.queue;
    }
  }

  function Smaller(a: nat, b: nat): nat {
    if a < b then a else b
  }

  /** What a call of the writable handler takes off the queue: as much as the kernel takes, nothing if the socket
      takes none; only an error or hang-up ends the connection. */
  lemma WritableTakes(s: WriteState, o: Outcome)
    requires s.connected
    ensures var t, k := Writable(s, o), if o.Takes? then Smaller(o.n, |s.queue|) else 0;
      && (t.connected <==> !o.Broken?) && t.wire == s.wire + s.queue[..k]
      && t.queue == (if t.connected then s.queue[k..] else []) && t.capacity == s.capacity
  {
    assert s.queue[..0] == [] && s.queue[0..] == s.queue && s.wire + [] == s.wire;
  }

  datatype Event = SendEv(message: Message) | WritableEv(outcome: Outcome)

  ghost function Run(events: seq<Event>): (s: WriteState)
    ensures Inv(s)
  {
    if events == [] then
      assert FRESH.capacity == Doubled(0);
      FRESH
    else
      var s := Run(events[..|events| - 1]);
      match events[|events| - 1]
      case SendEv(m) => SendKeepsInv(s, m); Send(s, m)
      case WritableEv(o) => WritableKeepsInv(s, o); Writable(s, o)
  }

  /** The messages sent in a run while the client was connected and not dropped by that send. */
  ghost function AcceptedSends(events: seq<Event>): seq<Message> {
    if events == [] then []
    else
      var before := AcceptedSends(events[..|events| - 1]);
      match events[|events| - 1]
      case SendEv(m) =>
        var s := Run(events[..|events| - 1]);
        if s.connected && Fits(s, m) then before + [m] else before
      case WritableEv(_) => before
  }

  lemma {:induction false} RunAccepts(events: seq<Event>)
    ensures Run(events).accepted == AcceptedSends(events)
  {
    if events != [] {
      var init, last := events[..|events| - 1], events[|events| - 1];
      RunAccepts(init);
      var s := Run(init);
      if last.WritableEv? {
        WritableKeepsInv(s, last.outcome);
      } else if s.connected {
        SendRefusedIff(s, last.message);
      }
    }
  }

  /** Exactly-once FIFO delivery, whatever the schedule of sends and partial writes: while the
      client is connected, the bytes on the wire and then those queued are the accepted messages
      in order, a writable source exists exactly while some are queued, and there are fewer than
      2^21 of these; after a disconnect the wire holds a prefix. */
  lemma Delivery(events: seq<Event>)
    ensures var s := Run(events); var all := EncodeAll(AcceptedSends(events));
      if s.connected then
        s.wire + s.queue == all && (s.source <==> s.queue != []) && |s.queue| < 0x20_0000
      else s.wire <= all
  {
    RunAccepts(events);
    if Run(events).connected {
      CapacityLimit(Run(events).capacity);
    }
  }

  /** What a reader of the socket can have decoded at any moment is a prefix of the accepted
      messages; once the queue has drained it is all of them. */
  lemma DecodedFromWire(events: seq<Event>)
    ensures Parse(Run(events).wire).commands <= AcceptedSends(events)
    ensures Run(events).connected && Run(events).queue == [] ==>
      Parse(Run(events).wire) == Parsed(AcceptedSends(events), Partial([]))
  {
    Delivery(events);
    ParseEncodeAll(AcceptedSends(events));
    ParsePrefix(Run(events).wire, EncodeAll(AcceptedSends(events)));
    assert Run(events).wire + [] == Run(events).wire;
  }

  // ---- how long the connection lasts and when the queue is empty ----

  /** An event that ends the connection. */
  ghost predicate Ends(s: WriteState, e: Event) {
    match e
    case SendEv(m) => !Fits(s, m)
    case WritableEv(o) => o.Broken?
  }

  ghost function After(s: WriteState, e: Event): WriteState
    requires Inv(s)
  {
    match e
    case SendEv(m) => SendKeepsInv(s, m); Send(s, m)
    case WritableEv(o) => Writable(s, o)
  }

  lemma RunIs(events: seq<Event>)
    ensures events == [] ==> Run(events) == FRESH
    ensures events != [] ==> Run(events) == After(Run(events[..|events| - 1]), events[|events| - 1])
  {
  }

  lemma EndsIff(s: WriteState, e: Event)
    requires Inv(s)
    ensures After(s, e).connected <==> s.connected && !Ends(s, e)
  {
    if s.connected {
      match e
      case SendEv(m) => SendRefusedIff(s, m);
      case WritableEv(o) => WritableTakes(s, o);
    }
  }

  ghost predicate NoneEnds(events: seq<Event>) {
    forall i :: 0 <= i < |events| ==> !Ends(Run(events[..i]), events[i])
  }

  lemma NoneEndsNext(events: seq<Event>)
    requires events != []
    ensures var n := |events| - 1;
      NoneEnds(events) <==> NoneEnds(events[..n]) && !Ends(Run(events[..n]), events[n])
  {
    hide Run, Ends;
    var n := |events| - 1;
    assert forall i :: 0 <= i < n ==> events[..n][..i] == events[..i] && events[..n][i] == events[i];
  }

  /** The client is connected exactly as long as no message was too much for its queue and no error or hang-up
      was reported. */
  lemma {:induction false} ConnectedIff(events: seq<Event>)
    ensures Run(events).connected <==> NoneEnds(events)
  {
    hide Run, Ends, NoneEnds;
    RunIs(events);
    if events == [] {
      NothingEnds();
    } else {
      var init := events[..|events| - 1];
      ConnectedIff(init);
      NoneEndsNext(events);
      EndsIff(Run(init), events[|events| - 1]);
    }
  }

  lemma NothingEnds()
    ensures NoneEnds([])
  {
  }

  /** Events without a send, in which nothing breaks. */
  predicate OnlyWrites(events: seq<Event>) {
    forall e :: e in events ==> e.WritableEv? && !e.outcome.Broken?
  }

  /** How many bytes the kernel was ready to take. */
  function Offered(events: seq<Event>): nat {
    if events == [] then 0
    else Offered(events[..|events| - 1]) + Room(events[|events| - 1])
  }

  function Room(e: Event): nat {
    if e.WritableEv? && e.outcome.Takes? then e.outcome.n else 0
  }

  lemma SendsLast(events: seq<Event>, e: Event)
    requires e.WritableEv?
    ensures AcceptedSends(events + [e]) == AcceptedSends(events)
    ensures Run(events + [e]) == Writable(Run(events), e.outcome)
  {
    assert (events + [e])[..|events|] == events && (events + [e])[|events|] == e;
    RunIs(events + [e]);
  }

  /** The bytes offered have gone from the queue `s` held to the wire, and nothing was sent. */
  ghost predicate Taken(s: WriteState, t: WriteState, offered: nat) {
    var k := Smaller(offered, |s.queue|);
    t.connected && t.wire == s.wire + s.queue[..k] && t.queue == s.queue[k..]
  }

  lemma TakenNext(s: WriteState, t: WriteState, offered: nat, e: Event)
    requires Taken(s, t, offered) && e.WritableEv? && !e.outcome.Broken?
    ensures Taken(s, Writable(t, e.outcome), offered + Room(e))
  {
    hide Writable, Room;
    WritableTakesRoom(t, e);
    TakeMore(s.wire, s.queue, offered, Room(e));
  }

  /** While nothing more is sent, exactly what the kernel takes leaves the queue. */
  lemma {:induction false} WritesTake(events: seq<Event>, more: seq<Event>)
    requires Run(events).connected && OnlyWrites(more)
    ensures Taken(Run(events), Run(events + more), Offered(more))
    ensures AcceptedSends(events + more) == AcceptedSends(events)
  {
    hide Run, AcceptedSends, Taken;
    var s := Run(events);
    if more == [] {
      assert events + more == events;
      TakenNone(s);
    } else {
      var init, e := more[..|more| - 1], more[|more| - 1];
      assert e in more && forall d :: d in init ==> d in more;
      WritesTake(events, init);
      assert events + more == (events + init) + [e];
      SendsLast(events + init, e);
      TakenNext(s, Run(events + init), Offered(init), e);
    }
  }

  lemma TakenNone(s: WriteState)
    requires s.connected
    ensures Taken(s, s, 0)
  {
    assert s.queue[..0] == [] && s.wire + [] == s.wire && s.queue[0..] == s.queue;
  }

  lemma WritableTakesRoom(s: WriteState, e: Event)
    requires s.connected && e.WritableEv? && !e.outcome.Broken?
    ensures var t, k := Writable(s, e.outcome), Smaller(Room(e), |s.queue|);
      t.connected && t.wire == s.wire + s.queue[..k] && t.queue == s.queue[k..]
  {
    WritableTakes(s, e.outcome);
  }

  lemma TakeMore(wire: Bytes, queue: Bytes, a: nat, b: nat)
    ensures var k, l := Smaller(a, |queue|), Smaller(a + b, |queue|);
      var j := Smaller(b, |queue[k..]|);
      (wire + queue[..k]) + queue[k..][..j] == wire + queue[..l] && queue[k..][j..] == queue[l..]
  {
  }

  /** Once the kernel was ready to take as much as was queued after the last send, everything that was accepted
      is on the wire; before that, as much of it as the kernel took. */
  lemma Drained(events: seq<Event>, more: seq<Event>)
    requires Run(events).connected && OnlyWrites(more)
    ensures Offered(more) >= |Run(events).queue| <==> Run(events + more).queue == []
    ensures Offered(more) >= |Run(events).queue| ==> Run(events + more).wire == EncodeAll(AcceptedSends(events + more))
    ensures Offered(more) < |Run(events).queue| ==> |Run(events + more).wire| == |Run(events).wire| + Offered(more)
  {
    WritesTake(events, more);
    Delivery(events + more);
  }
}
