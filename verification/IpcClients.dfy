/** An IPC client object of the server: its fields, buffer and handlers. */
module IpcClients {
  import opened IpcFrame
  import R = IpcRead
  import W = IpcWrite

  /** What a poll reports besides readiness, and whether the system calls that follow succeed. */
  datatype PollResult = Error | Hangup | Ready(callsSucceed: bool)

  class IpcClient {
    var connected: bool
    var subscribed: set<nat>
    var writeBufferLen: nat
    var writeBufferSize: nat
    var writeBuffer: array<Byte>
    var writableSource: bool
    // data kept between event loop calls
    var pendingLength: Word
    var pendingType: Word
    // the bytes waiting in the socket
    var socketIn: Bytes
    // the used part of the write buffer, and the bytes the kernel has taken from it
    ghost var queue: Bytes
    ghost var wire: Bytes
    // the commands dispatched and the messages queued so far
    ghost var handled: seq<Message>
    ghost var accepted: seq<Message>

    ghost predicate Valid()
      reads this, writeBuffer
    {
      && (connected ==> BufferHolds(queue) && writeBuffer.Length == writeBufferSize)
      && W.Inv(WriteSide())
    }

    ghost predicate BufferHolds(bytes: Bytes)
      reads this, writeBuffer
    {
      |bytes| == writeBufferLen <= writeBuffer.Length && bytes == writeBuffer[..writeBufferLen]
    }

    ghost function WriteSide(): W.WriteState
      reads this
    {
      W.WriteState(connected, queue, writeBufferSize, writableSource, wire, accepted)
    }

    ghost function ReadSide(): R.ReadState
      reads this
    {
      R.ReadState(connected, pendingLength, pendingType, socketIn, handled)
    }

    /** The part of `ipc_handle_connection` that sets up the client. */
    constructor ()
      ensures Valid() && fresh(writeBuffer)
      ensures WriteSide() == W.FRESH && ReadSide() == R.CONNECTED && subscribed == {}
    {
      connected := true;
      subscribed := {};
      pendingLength, pendingType := 0, 0;
      writeBufferSize := 128;
      writeBufferLen := 0;
      writeBuffer := new Byte[128];
      writableSource := false;
      socketIn, queue, wire, handled, accepted := [], [], [], [], [];
      new;
      assert W.FRESH.capacity == W.Doubled(0);
    }

    /** Closing the socket and freeing the buffer. */
    method Close()
      requires W.Inv(W.Disconnected(WriteSide()))
      modifies this`connected, this`writeBufferLen, this`writableSource, this`queue
      ensures Valid() && WriteSide() == W.Disconnected(old(WriteSide()))
    {
      connected := false;
      writeBufferLen := 0;
      queue := [];
      writableSource := false;
    }

    /** The queueing part of `ipc_send_reply`: false when the buffer would become too big. */
    method Enqueue(m: Message) returns (ok: bool)
      requires Valid() && connected
      modifies this`writeBufferLen, this`writeBufferSize, this`writeBuffer, this`writableSource
      modifies this`accepted, this`queue
      modifies writeBuffer
      ensures writeBuffer == old(writeBuffer) || fresh(writeBuffer)
      ensures ok <==> W.Send(old(WriteSide()), m).connected
      ensures ok ==> Valid() && WriteSide() == W.Send(old(WriteSide()), m)
      ensures !ok ==> W.Disconnected(WriteSide()) == W.Send(old(WriteSide()), m)
      ensures !ok ==> accepted == old(accepted)
    {
      hide Encode, W.Inv, W.Grown;
      ghost var before := WriteSide();
      W.SendKeepsInv(before, m);
      Grow(writeBufferLen + HEADER_SIZE + |m.payload|);
      if writeBufferSize > 4_000_000 {
        return false;
      }
      Reallocate();
      Append(Encode(m));
      writableSource := true;
      accepted, queue := accepted + [m], queue + Encode(m);
      return true;
    }

    /** The doubling loop. */
    method Grow(need: nat)
      requires writeBufferSize > 0
      modifies this`writeBufferSize
      ensures writeBufferSize == W.Grown(old(writeBufferSize), need)
    {
      while need >= writeBufferSize
        invariant writeBufferSize > 0 && W.Grown(writeBufferSize, need) == W.Grown(old(writeBufferSize), need)
        decreases need - writeBufferSize
      {
        writeBufferSize := writeBufferSize * 2;
      }
    }

    /** The copies of header and payload behind the used part of the buffer. */
    method Append(frame: Bytes)
      requires BufferHolds(queue) && writeBufferLen + |frame| <= writeBuffer.Length
      modifies this`writeBufferLen, writeBuffer
      ensures BufferHolds(queue + frame)
    {
      forall i | 0 <= i < |frame| {
        writeBuffer[writeBufferLen + i] := frame[i];
      }
      writeBufferLen := writeBufferLen + |frame|;
    }

    /** `realloc` of the write buffer to `writeBufferSize`. */
    method Reallocate()
      requires BufferHolds(queue) && writeBufferLen <= writeBufferSize
      modifies this`writeBuffer
      ensures writeBuffer.Length == writeBufferSize && (writeBuffer == old(writeBuffer) || fresh(writeBuffer))
      ensures BufferHolds(queue)
    {
      if writeBuffer.Length != writeBufferSize {
        var buffer := new Byte[writeBufferSize];
        forall i | 0 <= i < writeBufferLen {
          buffer[i] := writeBuffer[i];
        }
        writeBuffer := buffer;
      }
    }

    /** `ipc_client_handle_writable`; `o` is what the poll and the write report. False asks for a disconnect. */
    method Flush(o: W.Outcome) returns (ok: bool)
      requires Valid() && connected
      modifies this`writeBufferLen, this`writableSource, this`wire, this`queue, writeBuffer
      ensures ok <==> !o.Broken?
      ensures ok ==> Valid() && WriteSide() == W.Writable(old(WriteSide()), o)
      ensures !ok ==> unchanged(this) && unchanged(writeBuffer)
    {
      hide W.Inv;
      W.WritableKeepsInv(WriteSide(), o);
      if o.Broken? {
        return false;
      }
      if writeBufferLen <= 0 || o.WouldBlock? {
        return true;
      }
      var written := if o.n < writeBufferLen then o.n else writeBufferLen;
      wire := wire + queue[..written];
      // memmove of the unsent rest to the front
      forall i | 0 <= i < writeBufferLen - written {
        writeBuffer[i] := writeBuffer[i + written];
      }
      writeBufferLen := writeBufferLen - written;
      if writeBufferLen == 0 && writableSource {
        writableSource := false;
      }
      queue := queue[written..];
      return true;
    }

    /** The payload read at the top of `ipc_client_handle_command`. */
    method HandleCommand(length: Word, kind: Word)
      requires length <= |socketIn|
      modifies this`socketIn, this`handled
      ensures ReadSide() == R.HandleCommand(old(ReadSide()).(pendingLength := pendingLength), length, kind).(
                pendingLength := pendingLength)
    {
      handled := handled + [Frame(kind, socketIn[..length])];
      socketIn := socketIn[length..];
    }

    /** `ipc_client_handle_readable`. False asks for a disconnect. */
    method Receive(poll: PollResult) returns (ok: bool)
      requires connected
      modifies this`pendingLength, this`pendingType, this`socketIn, this`handled
      ensures poll != Ready(true) ==> !ok && unchanged(this)
      ensures poll == Ready(true) ==>
        ReadSide().(connected := ok) == R.HandleReadable(old(ReadSide()))
    {
      if poll.Error? || poll.Hangup? || !poll.callsSucceed {
        return false;
      }
      var available := |socketIn|;
      if pendingLength > 0 {
        if available >= pendingLength {
          var length, kind := pendingLength, pendingType;
          pendingLength := 0;
          HandleCommand(length, kind);
        }
        return true;
      }
      if available < HEADER_SIZE {
        return true;
      }
      var header := socketIn[..HEADER_SIZE];
      assert header[..6] == socketIn[..6];
      socketIn := socketIn[HEADER_SIZE..];
      if !HasMagic(header) {
        return false;
      }
      pendingLength := LengthField(header);
      pendingType := KindField(header);
      if available - HEADER_SIZE >= pendingLength {
        var length, kind := pendingLength, pendingType;
        pendingLength := 0;
        HandleCommand(length, kind);
      }
      return true;
    }
  }
}
