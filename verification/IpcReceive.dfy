/** The client library's side: `ipc_recv_response` and `ipc_single_command`. */
module IpcReceive {
  import opened Options
  import opened IpcFrame
  import opened IpcRead
  import W = IpcWrite

  /** A blocking stream socket whose peer sends `incoming` and then closes. */
  class Socket {
    var incoming: Bytes
    var sent: Bytes

    constructor (bytes: Bytes)
      ensures incoming == bytes && sent == []
    {
      incoming, sent := bytes, [];
    }

    /** `recv`: any non-empty part of what is there, up to `max` bytes; nothing only at the end. */
    method Recv(max: nat) returns (data: Bytes)
      modifies this`incoming
      ensures data + incoming == old(incoming) && |data| <= max
      ensures max > 0 && old(incoming) != [] ==> data != []
    {
      assert if max > 0 && incoming != [] then 1 <= max && 1 <= |incoming| else 0 <= max;
      var k: nat :| k <= max && k <= |incoming| && (max > 0 && incoming != [] ==> k > 0);
      data := incoming[..k];
      incoming := incoming[k..];
    }

    /** `write`: how much was taken of the data, or None for an error. */
    method Write(data: Bytes) returns (taken: Option<nat>)
      modifies this`sent
      ensures taken.Some? ==> taken.value <= |data| && sent == old(sent) + data[..taken.value]
      ensures taken.None? ==> sent == old(sent)
    {
      var n: nat :| n <= |data|;
      var failed: bool := *;
      if failed {
        return None;
      }
      sent := sent + data[..n];
      return Some(n);
    }
  }

  /** How `ipc_recv_response` ends: with a response, by aborting the program, or never, because
      its payload loop keeps receiving nothing from a closed socket. */
  datatype Received = Response(message: Message) | Aborted | Spinning

  /** The reference: taking one response off a stream. The magic is not looked at. */
  function TakeResponse(b: Bytes): (Received, Bytes) {
    if |b| < HEADER_SIZE then (Aborted, [])
    else
      var rest, length := b[HEADER_SIZE..], LengthField(b);
      if |rest| < length then (Spinning, [])
      else (Response(Frame(KindField(b), rest[..length])), rest[length..])
  }

  /** The receiving loops: up to `size` bytes, fewer only if the stream ends before. */
  method RecvAll(socket: Socket, size: nat) returns (data: Bytes)
    modifies socket`incoming
    ensures data + socket.incoming == old(socket.incoming)
    ensures |data| == if |old(socket.incoming)| < size then |old(socket.incoming)| else size
  {
    ghost var stream := socket.incoming;
    data := [];
    while |data| < size
      invariant |data| <= size && data + socket.incoming == stream
      decreases size - |data|
    {
      var part := socket.Recv(size - |data|);
      if |part| == 0 {
        return;
      }
      data := data + part;
    }
  }

  /** `ipc_recv_response`. Whatever sizes `recv` picks, the outcome depends on the stream alone. When
      nothing more comes, the loop over the header aborts, but that over the payload, which looks for errors
      only, goes on without progress. */
  method RecvResponse(socket: Socket) returns (r: Received)
    modifies socket`incoming
    ensures (r, socket.incoming) == TakeResponse(old(socket.incoming))
  {
    ghost var stream := socket.incoming;
    var data := RecvAll(socket, HEADER_SIZE);
    if |data| < HEADER_SIZE {
      return Aborted;
    }
    assert data == stream[..HEADER_SIZE] && socket.incoming == stream[HEADER_SIZE..];
    FieldsOfPrefix(data, socket.incoming);
    var size, kind := LengthField(data), KindField(data);
    ghost var rest := socket.incoming;
    var payload := RecvAll(socket, size);
    if |payload| < size {
      return Spinning;
    }
    assert payload == rest[..size] && socket.incoming == rest[size..];
    r := Response(Frame(kind, payload));
  }

  /** Whatever stands in the place of the magic makes no difference. */
  lemma MagicIgnored(magic: Bytes, b: Bytes)
    requires |magic| == |MAGIC|
    ensures TakeResponse(magic + b) == TakeResponse(MAGIC + b)
  {
    if |b| >= HEADER_SIZE - |MAGIC| {
      assert (magic + b)[HEADER_SIZE..] == b[HEADER_SIZE - |MAGIC|..] == (MAGIC + b)[HEADER_SIZE..];
    }
  }

  /** Repeated calls, until one of them ends the program or gets stuck. */
  function TakeAll(b: Bytes): (seq<Message>, Received)
    decreases |b|
  {
    match TakeResponse(b)
    case (Response(m), rest) => var (ms, end) := TakeAll(rest); ([m] + ms, end)
    case (end, _) => ([], end)
  }

  lemma TakeEncoded(m: Message, rest: Bytes)
    ensures TakeResponse(Encode(m) + rest) == (Response(m), rest)
  {
    HeaderRoundTrip(|m.payload|, m.kind, m.payload + rest);
    assert Encode(m) + rest == Header(|m.payload|, m.kind) + (m.payload + rest);
    assert (m.payload + rest)[..|m.payload|] == m.payload && (m.payload + rest)[|m.payload|..] == rest;
  }

  /** Where the stream consists of well-formed frames, receiving agrees with decoding. */
  lemma {:induction false} TakeAllParses(b: Bytes)
    requires Parse(b).tail != BadMagic
    ensures TakeAll(b).0 == Parse(b).commands
    ensures TakeAll(b).1 == if |Parse(b).tail.bytes| < HEADER_SIZE then Aborted else Spinning
    decreases |b|
  {
    if |b| >= HEADER_SIZE && |b| >= HEADER_SIZE + LengthField(b) {
      var end := HEADER_SIZE + LengthField(b);
      TakeAllParses(b[end..]);
      assert b[HEADER_SIZE..][..LengthField(b)] == b[HEADER_SIZE..end];
      assert b[HEADER_SIZE..][LengthField(b)..] == b[end..];
    }
  }

  lemma TakeAllOne(m: Message, rest: Bytes)
    ensures TakeAll(Encode(m) + rest) == ([m] + TakeAll(rest).0, TakeAll(rest).1)
  {
    TakeEncoded(m, rest);
  }

  lemma Grouped<T>(a: seq<T>, x: T, b: seq<T>)
    ensures a + ([x] + b) == (a + [x]) + b
  {
  }

  lemma EncodedLast(init: seq<Message>, last: Message, rest: Bytes)
    ensures EncodeAll(init + [last]) + rest == EncodeAll(init) + (Encode(last) + rest)
  {
    EncodeAllSnoc(init, last);
  }

  /** A client that receives encoded messages gets them, and then what the rest of the stream gives. */
  lemma {:induction false} TakeAllEncoded(ms: seq<Message>, rest: Bytes, stream: Bytes)
    requires stream == EncodeAll(ms) + rest
    ensures TakeAll(stream) == (ms + TakeAll(rest).0, TakeAll(rest).1)
  {
    if ms == [] {
      EncodeAllSnoc([], Frame(0, []));
      assert stream == rest && [] + TakeAll(rest).0 == TakeAll(rest).0;
    } else {
      var init, last := ms[..|ms| - 1], ms[|ms| - 1];
      assert ms == init + [last];
      EncodedLast(init, last, rest);
      TakeAllEncoded(init, Encode(last) + rest, stream);
      TakeAllOne(last, rest);
      Grouped(init, last, TakeAll(rest).0);
    }
  }

  /** A server that closes the connection behind a header whose payload it owes leaves the client in a
      loop that never ends, whatever was received before. */
  lemma StuckBehindHeader(ms: seq<Message>, length: Word, kind: Word, part: Bytes)
    requires |part| < length
    ensures TakeAll(EncodeAll(ms) + (Header(length, kind) + part)) == (ms, Spinning)
  {
    var rest := Header(length, kind) + part;
    TakeAllEncoded(ms, rest, EncodeAll(ms) + rest);
    HeaderRoundTrip(length, kind, part);
    assert ms + [] == ms && TakeResponse(Header(length, kind) + part).0 == Spinning;
  }

  /** End to end: a client that receives everything the server's write queue ever put on the wire
      gets exactly the accepted messages, types and payloads, once each and in order, when the
      queue has drained, and a prefix of them otherwise. */
  lemma EndToEnd(events: seq<W.Event>)
    ensures TakeAll(W.Run(events).wire).0 <= W.AcceptedSends(events)
    ensures W.Run(events).connected && W.Run(events).queue == [] ==>
      TakeAll(W.Run(events).wire).0 == W.AcceptedSends(events)
  {
    W.DecodedFromWire(events);
    W.Delivery(events);
    ParseEncodeAll(W.AcceptedSends(events));
    WellFormedPrefix(W.Run(events).wire, EncodeAll(W.AcceptedSends(events)));
    TakeAllParses(W.Run(events).wire);
  }

  /** No prefix of a well-formed stream shows a bad magic. */
  lemma WellFormedPrefix(b: Bytes, all: Bytes)
    requires b <= all && Parse(all).tail != BadMagic
    ensures Parse(b).tail != BadMagic
  {
    ParseAppend(b, all[|b|..]);
    assert all == b + all[|b|..];
  }

  /** The request half of `ipc_single_command`: two writes, `header` and `payload` bytes of which are
      taken. Only errors are looked for, so the program goes on after a short write as well; what it sent
      is an encoded command exactly if both were taken whole. */
  method SendCommand(socket: Socket, command: Message) returns (ok: bool, header: nat, payload: nat)
    modifies socket`sent
    ensures header <= HEADER_SIZE && payload <= |command.payload|
    ensures socket.sent == old(socket.sent) + Sent(command, header, payload)
    ensures ok ==>
      (socket.sent == old(socket.sent) + Encode(command) <==> header == HEADER_SIZE && payload == |command.payload|)
  {
    header, payload := 0, 0;
    ghost var before := socket.sent;
    SentIs(before, command);
    var taken := socket.Write(Header(|command.payload|, command.kind));
    if taken == None {
      return false, 0, 0;
    }
    header := taken.value;
    taken := socket.Write(command.payload);
    if taken == None {
      return false, header, 0;
    }
    return true, header, taken.value;
  }

  function Sent(command: Message, header: nat, payload: nat): Bytes
    requires header <= HEADER_SIZE && payload <= |command.payload|
  {
    Header(|command.payload|, command.kind)[..header] + command.payload[..payload]
  }

  lemma SentIs(before: Bytes, command: Message)
    ensures before + Sent(command, 0, 0) == before
    ensures forall h, p :: 0 <= h <= HEADER_SIZE && 0 <= p <= |command.payload| ==>
      && before + Sent(command, h, p)
         == before + Header(|command.payload|, command.kind)[..h] + command.payload[..p]
      && (before + Sent(command, h, p) == before + Encode(command) <==> h == HEADER_SIZE && p == |command.payload|)
  {
    var head := Header(|command.payload|, command.kind);
    assert head[..HEADER_SIZE] == head && command.payload[..|command.payload|] == command.payload;
    forall h, p | 0 <= h <= HEADER_SIZE && 0 <= p <= |command.payload|
      ensures before + Sent(command, h, p) == before + head[..h] + command.payload[..p]
      ensures before + Sent(command, h, p) == before + Encode(command) ==> h == HEADER_SIZE && p == |command.payload|
    {
      assert |before + Sent(command, h, p)| == |before| + h + p;
    }
  }

  lemma PartWaits(length: Word, kind: Word, part: Bytes)
    requires |part| < length
    ensures Parse(Header(length, kind) + part).commands == []
  {
    HeaderRoundTrip(length, kind, part);
  }

  lemma PartCompleted(length: Word, kind: Word, part: Bytes, next: Bytes)
    requires |part| < length <= |part| + |next|
    ensures var missing := length - |part|;
      Parse(Header(length, kind) + (part + next))
        == Prepend([Frame(kind, part + next[..missing])], Parse(next[missing..]))
  {
    hide Parse;
    ParsePending(length, kind, part + next);
    PartsCut(length, part, next);
  }

  lemma PartsCut(length: nat, part: Bytes, next: Bytes)
    requires |part| < length <= |part| + |next|
    ensures (part + next)[..length] == part + next[..length - |part|]
    ensures (part + next)[length..] == next[length - |part|..]
  {
  }

  /** A request whose payload is cut short is not handled: the server waits for the rest, and takes the
      first bytes of the next request for it. */
  lemma CutRequestWaits(command: Message, payload: nat, next: Bytes)
    requires payload < |command.payload| <= payload + |next|
    ensures Parse(Sent(command, HEADER_SIZE, payload)).commands == []
    ensures var missing := |command.payload| - payload;
      Parse(Sent(command, HEADER_SIZE, payload) + next)
        == Prepend([Frame(command.kind, command.payload[..payload] + next[..missing])], Parse(next[missing..]))
  {
    var head, part := Header(|command.payload|, command.kind), command.payload[..payload];
    assert head[..HEADER_SIZE] == head;
    assert head + part + next == head + (part + next);
    PartWaits(|command.payload|, command.kind, part);
    PartCompleted(|command.payload|, command.kind, part, next);
  }
}
