/** The readable side of an IPC client: how `ipc_client_handle_readable` cuts an incoming byte
    stream into commands, and why the result does not depend on how the bytes arrive. */
module IpcRead {
  import opened IpcFrame

  /** The client fields the readable handler works on, the bytes waiting in the socket, and the
      commands handed to `ipc_client_handle_command` so far. */
  datatype ReadState = ReadState(
    connected: bool, pendingLength: Word, pendingType: Word, unread: Bytes, handled: seq<Message>)

  const CONNECTED := ReadState(true, 0, 0, [], [])

  /** One call of the handler on a socket without error or hang-up. */
  function HandleReadable(s: ReadState): ReadState {
    if !s.connected then s
    else if s.pendingLength > 0 then
      if |s.unread| >= s.pendingLength then
        HandleCommand(s, s.pendingLength, s.pendingType)
      else s
    else if |s.unread| < HEADER_SIZE then s
    else if !HasMagic(s.unread) then
      s.(connected := false, unread := s.unread[HEADER_SIZE..])
    else
      var t := s.(pendingLength := LengthField(s.unread), pendingType := KindField(s.unread),
                  unread := s.unread[HEADER_SIZE..]);
      if |t.unread| >= t.pendingLength then
        HandleCommand(t, t.pendingLength, t.pendingType)
      else t
  }

  /** `ipc_client_handle_command` up to the dispatch: takes the payload off the socket. */
  function HandleCommand(s: ReadState, length: Word, kind: Word): ReadState
    requires length <= |s.unread|
  {
    s.(pendingLength := 0, unread := s.unread[length..], handled := s.handled + [Frame(kind, s.unread[..length])])
  }

  /** What can happen to a client: bytes arrive, or the event loop calls the handler; or it is
      disconnected because of an error, a hang-up or a failed call. */
  datatype Event = Arrive(bytes: Bytes) | Readable | Lost

  function Step(s: ReadState, e: Event): ReadState {
    match e
    case Arrive(bytes) => s.(unread := s.unread + bytes)
    case Readable => HandleReadable(s)
    case Lost => s.(connected := false)
  }

  function Run(events: seq<Event>): ReadState {
    if events == [] then CONNECTED else Step(Run(events[..|events| - 1]), events[|events| - 1])
  }

  function Arrived(events: seq<Event>): Bytes {
    if events == [] then []
    else if events[|events| - 1].Arrive? then Arrived(events[..|events| - 1]) + events[|events| - 1].bytes
    else Arrived(events[..|events| - 1])
  }

  /** Another call of the handler would change nothing. */
  predicate Quiescent(s: ReadState) {
    HandleReadable(s) == s
  }

  /** What follows the complete commands of a stream: a proper prefix of one more command, or
      bytes that do not start with the magic. */
  datatype Tail = Partial(bytes: Bytes) | BadMagic

  datatype Parsed = Parsed(commands: seq<Message>, tail: Tail)

  /** The reference: decoding a whole stream at once. */
  function Parse(b: Bytes): Parsed {
    ParseCommands(b)
  }

  function ParseCommands(b: Bytes): Parsed
    decreases |b|
  {
    if |b| < HEADER_SIZE then Parsed([], Partial(b))
    else if !HasMagic(b) then Parsed([], BadMagic)
    else if |b| < HEADER_SIZE + LengthField(b) then Parsed([], Partial(b))
    else
      var end := HEADER_SIZE + LengthField(b);
      Prepend([Frame(KindField(b), b[HEADER_SIZE..end])], ParseCommands(b[end..]))
  }

  function Prepend(commands: seq<Message>, p: Parsed): Parsed {
    Parsed(commands + p.commands, p.tail)
  }

  lemma PrependPrepend(x: seq<Message>, y: seq<Message>, p: Parsed)
    ensures Prepend(x, Prepend(y, p)) == Prepend(x + y, p) && Prepend([], p) == p
  {
    assert x + (y + p.commands) == (x + y) + p.commands && [] + p.commands == p.commands;
  }

  /** Decoding going on at the tail of what was decoded. */
  function Continue(p: Parsed, more: Bytes): Parsed {
    match p.tail
    case BadMagic => p
    case Partial(rest) => Prepend(p.commands, Parse(rest + more))
  }

  lemma ContinuePrepend(commands: seq<Message>, p: Parsed, more: Bytes)
    ensures Continue(Prepend(commands, p), more) == Prepend(commands, Continue(p, more))
  {
    if p.tail.Partial? {
      PrependPrepend(commands, p.commands, Parse(p.tail.bytes + more));
    }
  }

  lemma {:induction false} EncodeAllCons(f: Message, fs: seq<Message>)
    ensures EncodeAll([f] + fs) == Encode(f) + EncodeAll(fs)
  {
    if fs == [] {
      EncodeAllSnoc([], f);
      assert [] + [f] == [f] + fs && [] + Encode(f) == Encode(f) + [];
    } else {
      var init, last := fs[..|fs| - 1], fs[|fs| - 1];
      EncodeAllCons(f, init);
      EncodeAllSnoc([f] + init, last);
      EncodeAllSnoc(init, last);
      assert fs == init + [last] && [f] + fs == ([f] + init) + [last];
      assert (Encode(f) + EncodeAll(init)) + Encode(last) == Encode(f) + (EncodeAll(init) + Encode(last));
    }
  }

  /** What may be left of a stream behind its complete commands. */
  predicate IsTail(rest: Bytes, tail: Tail) {
    match tail
    case BadMagic => |rest| >= HEADER_SIZE && !HasMagic(rest)
    case Partial(bytes) =>
      bytes == rest && (|rest| < HEADER_SIZE || (HasMagic(rest) && |rest| < HEADER_SIZE + LengthField(rest)))
  }

  lemma FirstCommand(b: Bytes)
    requires |b| >= HEADER_SIZE && HasMagic(b) && |b| >= HEADER_SIZE + LengthField(b)
    ensures var end := HEADER_SIZE + LengthField(b);
      var f := Frame(KindField(b), b[HEADER_SIZE..end]);
      b == Encode(f) + b[end..] && Parse(b) == Prepend([f], Parse(b[end..]))
  {
    HeaderFromFields(b);
    var end := HEADER_SIZE + LengthField(b);
    assert b[HEADER_SIZE..] == b[HEADER_SIZE..end] + b[end..];
  }

  lemma FirstAndRest(f: Message, fs: seq<Message>, b: Bytes, later: Bytes, rest: Bytes)
    requires b == Encode(f) + later && later == EncodeAll(fs) + rest
    ensures b == EncodeAll([f] + fs) + rest
  {
    hide EncodeAll, Encode;
    EncodeAllCons(f, fs);
  }

  lemma NoCommand(b: Bytes)
    requires |b| < HEADER_SIZE || !HasMagic(b) || |b| < HEADER_SIZE + LengthField(b)
    ensures b == EncodeAll(Parse(b).commands) + b && IsTail(b, Parse(b).tail)
  {
    EncodeAllSnoc([], Frame(0, []));
    assert [] + b == b;
  }

  /** What decoding means: the stream is the encoding of the commands, and behind them there is the beginning of
      one more, or a whole header without the magic. */
  lemma {:induction false} ParseIs(b: Bytes) returns (rest: Bytes)
    ensures b == EncodeAll(Parse(b).commands) + rest && IsTail(rest, Parse(b).tail)
    decreases |b|
  {
    hide EncodeAll, Encode, Parse, IsTail, HasMagic;
    if |b| < HEADER_SIZE || !HasMagic(b) || |b| < HEADER_SIZE + LengthField(b) {
      NoCommand(b);
      rest := b;
    } else {
      FirstCommand(b);
      var end := HEADER_SIZE + LengthField(b);
      rest := ParseIs(b[end..]);
      FirstAndRest(Frame(KindField(b), b[HEADER_SIZE..end]), Parse(b[end..]).commands, b, b[end..], rest);
    }
  }

  /** Decoding is incremental: what was decoded of a prefix stands. */
  lemma {:induction false} ParseAppend(b: Bytes, more: Bytes)
    ensures Parse(b + more) == Continue(Parse(b), more)
    decreases |b|
  {
    if |b| < HEADER_SIZE {
      PrependPrepend([], [], Parse(b + more));
    } else {
      FieldsOfPrefix(b, more);
      var end := HEADER_SIZE + LengthField(b);
      if HasMagic(b) && |b| >= end {
        assert (b + more)[end..] == b[end..] + more;
        assert (b + more)[HEADER_SIZE..end] == b[HEADER_SIZE..end];
        ParseAppend(b[end..], more);
        ContinuePrepend([Frame(KindField(b), b[HEADER_SIZE..end])], Parse(b[end..]), more);
      } else {
        PrependPrepend([], [], Parse(b + more));
      }
    }
  }

  lemma ParsePrefix(b: Bytes, all: Bytes)
    requires b <= all
    ensures Parse(b).commands <= Parse(all).commands
  {
    ParseAppend(b, all[|b|..]);
    assert all == b + all[|b|..];
  }

  /** The bytes of the stream a client has not turned into commands: a header already taken off
      the socket counts as still to be decoded. */
  function Undecoded(s: ReadState): Bytes {
    (if s.pendingLength > 0 then Header(s.pendingLength, s.pendingType) else []) + s.unread
  }

  /** The invariant: `s` is part-way through decoding the stream `b`. */
  ghost predicate Decoding(s: ReadState, b: Bytes) {
    if s.connected then Parse(b) == Prepend(s.handled, Parse(Undecoded(s)))
    else Parse(b) == Parsed(s.handled, BadMagic)
  }

  /** A command whose payload has arrived is the first command of what is undecoded. */
  lemma ParsePending(length: Word, kind: Word, unread: Bytes)
    requires length <= |unread|
    ensures Parse(Header(length, kind) + unread)
         == Prepend([Frame(kind, unread[..length])], Parse(unread[length..]))
  {
    var b := Header(length, kind) + unread;
    HeaderRoundTrip(length, kind, unread);
    assert b[HEADER_SIZE..HEADER_SIZE + length] == unread[..length];
    assert b[HEADER_SIZE + length..] == unread[length..];
  }

  /** Handing over a command moves it from the undecoded stream to the handled commands. */
  lemma HandleCommandDecodes(s: ReadState, b: Bytes, length: Word, kind: Word)
    requires s.connected && length <= |s.unread|
    requires Parse(b) == Prepend(s.handled, Parse(Header(length, kind) + s.unread))
    ensures Decoding(HandleCommand(s, length, kind), b)
  {
    var rest, f := s.unread[length..], Frame(kind, s.unread[..length]);
    ParsePending(length, kind, s.unread);
    PrependPrepend(s.handled, [f], Parse(rest));
    assert Undecoded(HandleCommand(s, length, kind)) == rest;
  }

  /** Taking a header off the socket changes nothing about what is undecoded. */
  lemma HeaderDecodes(s: ReadState, b: Bytes)
    requires Decoding(s, b) && s.connected && s.pendingLength == 0 && |s.unread| >= HEADER_SIZE
    ensures Decoding(HandleReadable(s), b)
  {
    assert Undecoded(s) == s.unread;
    if HasMagic(s.unread) {
      HeaderFromFields(s.unread);
      var length, kind, rest := LengthField(s.unread), KindField(s.unread), s.unread[HEADER_SIZE..];
      if |rest| >= length {
        HandleCommandDecodes(s.(unread := rest), b, length, kind);
        assert HandleReadable(s) == HandleCommand(s.(unread := rest), length, kind).(pendingType := kind);
        assert Undecoded(HandleReadable(s)) == rest[length..];
      }
    } else {
      assert Parse(s.unread) == Parsed([], BadMagic);
    }
  }

  lemma HandleReadableDecodes(s: ReadState, b: Bytes)
    requires Decoding(s, b)
    ensures Decoding(HandleReadable(s), b)
  {
    if s.connected && s.pendingLength > 0 && |s.unread| >= s.pendingLength {
      HandleCommandDecodes(s, b, s.pendingLength, s.pendingType);
    } else if s.connected && s.pendingLength == 0 && |s.unread| >= HEADER_SIZE {
      HeaderDecodes(s, b);
    }
  }

  lemma ArriveDecodes(s: ReadState, b: Bytes, bytes: Bytes)
    requires Decoding(s, b)
    ensures Decoding(s.(unread := s.unread + bytes), b + bytes)
  {
    hide Parse, Undecoded;
    ParseAppend(b, bytes);
    if s.connected {
      ContinuePrepend(s.handled, Parse(Undecoded(s)), bytes);
      ParseAppend(Undecoded(s), bytes);
      UndecodedAppend(s, bytes);
    }
  }

  lemma UndecodedAppend(s: ReadState, bytes: Bytes)
    ensures Undecoded(s.(unread := s.unread + bytes)) == Undecoded(s) + bytes
  {
  }

  /** A client that was disconnected for other reasons than its stream has handled part of it. */
  ghost predicate Tracking(s: ReadState, b: Bytes, lost: bool) {
    if lost then !s.connected && s.handled <= Parse(b).commands else Decoding(s, b)
  }

  lemma LostTracks(s: ReadState, b: Bytes, lost: bool)
    requires Tracking(s, b, lost)
    ensures s.handled <= Parse(b).commands
    ensures Tracking(s.(connected := false), b, true)
  {
  }

  lemma {:induction false} RunTracks(events: seq<Event>)
    ensures Tracking(Run(events), Arrived(events), Lost in events)
  {
    if events == [] {
      assert Undecoded(CONNECTED) == [];
    } else {
      var init, last := events[..|events| - 1], events[|events| - 1];
      RunTracks(init);
      assert events == init + [last];
      LostTracks(Run(init), Arrived(init), Lost in init);
      match last
      case Arrive(bytes) =>
        ParsePrefix(Arrived(init), Arrived(init) + bytes);
        if Lost !in init { ArriveDecodes(Run(init), Arrived(init), bytes); }
      case Readable =>
        if Lost !in init { HandleReadableDecodes(Run(init), Arrived(init)); }
      case Lost =>
    }
  }

  /** A quiescent client holds nothing but the partial command at the end of the stream. */
  lemma QuiescentTail(s: ReadState)
    requires s.connected && Quiescent(s)
    ensures Parse(Undecoded(s)) == Parsed([], Partial(Undecoded(s)))
    ensures |Undecoded(s)| < HEADER_SIZE || |Undecoded(s)| < HEADER_SIZE + LengthField(Undecoded(s))
    ensures s.pendingLength > 0 <==> |Undecoded(s)| >= HEADER_SIZE
  {
    if s.pendingLength > 0 {
      HeaderRoundTrip(s.pendingLength, s.pendingType, s.unread);
      assert |s.unread| >= s.pendingLength ==> |HandleReadable(s).handled| > |s.handled|;
    } else {
      assert Undecoded(s) == s.unread;
      assert |s.unread| >= HEADER_SIZE ==> |HandleReadable(s).unread| < |s.unread|;
    }
  }

  /** Decoding does not depend on the arrivals: after any interleaving of arrivals and handler
      calls that has come to rest, the commands handled are exactly those of the whole stream;
      the client is disconnected iff it was lost or the stream has a bad magic at a command border;
      and what a connected client still holds is exactly the one partial command at the end, its
      header taken off the socket iff it is complete. */
  lemma ChunkingIndependence(events: seq<Event>)
    requires Quiescent(Run(events))
    ensures Lost !in events ==> Run(events).handled == Parse(Arrived(events)).commands
    ensures Run(events).connected <==> Lost !in events && Parse(Arrived(events)).tail != BadMagic
    ensures Run(events).connected ==>
      && Parse(Arrived(events)).tail == Partial(Undecoded(Run(events)))
      && (Run(events).pendingLength > 0 <==> |Undecoded(Run(events))| >= HEADER_SIZE)
  {
    RunTracks(events);
    if Run(events).connected {
      QuiescentTail(Run(events));
    }
  }

  /** Calling the handler often enough always brings it to rest: every call that changes
      something takes bytes off the socket or drops the client. */
  lemma HandlerProgress(s: ReadState)
    requires !Quiescent(s)
    ensures |HandleReadable(s).unread| < |s.unread|
  {
    if s.pendingLength == 0 {
      assert |s.unread| >= HEADER_SIZE;
    }
  }

  /** Even in the middle of a run nothing is handled out of order or twice, and a client that is lost
      does not change that: the commands handled are a prefix of those in the stream. */
  lemma HandledIsPrefix(events: seq<Event>)
    ensures Run(events).handled <= Parse(Arrived(events)).commands
  {
    RunTracks(events);
    LostTracks(Run(events), Arrived(events), Lost in events);
  }

  lemma ParseOneMore(b: Bytes, done: seq<Message>, f: Message)
    requires Parse(b) == Parsed(done, Partial([]))
    ensures Parse(b + Encode(f)) == Parsed(done + [f], Partial([]))
  {
    ParseAppend(b, Encode(f));
    assert [] + Encode(f) == Encode(f);
    ParsePending(|f.payload|, f.kind, f.payload);
    assert f.payload[..|f.payload|] == f.payload && f.payload[|f.payload|..] == [];
    PrependPrepend(done, [f], Parsed([], Partial([])));
    assert done + [f] + [] == done + [f];
  }

  /** Decoding undoes encoding: a stream of encoded commands, however it is cut up, is handled as
      exactly those commands. */
  lemma {:induction false} ParseEncodeAll(fs: seq<Message>)
    ensures Parse(EncodeAll(fs)) == Parsed(fs, Partial([]))
  {
    if fs != [] {
      ParseEncodeAll(fs[..|fs| - 1]);
      EncodeAllSnoc(fs[..|fs| - 1], fs[|fs| - 1]);
      ParseOneMore(EncodeAll(fs[..|fs| - 1]), fs[..|fs| - 1], fs[|fs| - 1]);
      assert fs == fs[..|fs| - 1] + [fs[|fs| - 1]];
    }
  }
}
