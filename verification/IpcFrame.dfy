/** The framing of the i3 IPC protocol ("Sending messages to i3", "Receiving replies from i3"):
    magic, payload length, message type, payload; both numbers in the host's byte order, here
    little-endian. */
module IpcFrame {
  type Byte = b: int | 0 <= b < 0x100
  type Word = w: int | 0 <= w < 0x1_0000_0000

  type Bytes = seq<Byte>

  // "i3-ipc"
  const MAGIC: Bytes := [0x69, 0x33, 0x2D, 0x69, 0x70, 0x63]
  const HEADER_SIZE := 14

  datatype Packet = Frame(kind: Word, payload: Bytes)

  /** A packet whose length fits its 32-bit length field. */
  type Message = p: Packet | |p.payload| < 0x1_0000_0000 witness Frame(0, [])

  function PutWord(w: Word): (b: Bytes)
    ensures |b| == 4
  {
    [w % 0x100, w / 0x100 % 0x100, w / 0x1_0000 % 0x100, w / 0x100_0000]
  }

  function GetWord(b0: Byte, b1: Byte, b2: Byte, b3: Byte): Word {
    (b0 as int) + 0x100 * (b1 as int) + 0x1_0000 * (b2 as int) + 0x100_0000 * (b3 as int)
  }

  /** Dividing by powers of 256 is dropping bytes one by one. */
  lemma Shifted(w: Word)
    ensures w / 0x1_0000 == w / 0x100 / 0x100 && w / 0x100_0000 == w / 0x100 / 0x100 / 0x100
  {
  }

  lemma WordRoundTrip(w: Word)
    ensures var b := PutWord(w); GetWord(b[0], b[1], b[2], b[3]) == w
  {
    Shifted(w);
  }

  lemma LowByte(w: int, low: Byte, high: int)
    requires w == low + 0x100 * high
    ensures w / 0x100 == high && w % 0x100 == low
  {
  }

  lemma BytesRoundTrip(b0: Byte, b1: Byte, b2: Byte, b3: Byte)
    ensures PutWord(GetWord(b0, b1, b2, b3)) == [b0, b1, b2, b3]
  {
    var w := GetWord(b0, b1, b2, b3);
    var h2 := b2 + 0x100 * (b3 as int);
    var h1 := b1 + 0x100 * h2;
    LowByte(w, b0, h1);
    LowByte(h1, b1, h2);
    LowByte(h2, b2, b3);
    Shifted(w);
  }

  function Header(length: Word, kind: Word): (h: Bytes)
    ensures |h| == HEADER_SIZE
  {
    MAGIC + PutWord(length) + PutWord(kind)
  }

  predicate HasMagic(b: Bytes) {
    |b| >= 6 && b[..6] == MAGIC
  }

  function LengthField(b: Bytes): Word
    requires |b| >= HEADER_SIZE
  {
    GetWord(b[6], b[7], b[8], b[9])
  }

  function KindField(b: Bytes): Word
    requires |b| >= HEADER_SIZE
  {
    GetWord(b[10], b[11], b[12], b[13])
  }

  function Encode(f: Message): (b: Bytes)
    ensures |b| == HEADER_SIZE + |f.payload|
  {
    Header(|f.payload|, f.kind) + f.payload
  }

  /** The header of a frame is read back from any buffer that starts with it. */
  lemma HeaderRoundTrip(length: Word, kind: Word, rest: Bytes)
    ensures var b := Header(length, kind) + rest;
      HasMagic(b) && LengthField(b) == length && KindField(b) == kind && b[HEADER_SIZE..] == rest
  {
    assert (Header(length, kind) + rest)[..6] == MAGIC;
    WordRoundTrip(length);
    WordRoundTrip(kind);
  }

  /** A header is re-created from its two fields. */
  lemma HeaderFromFields(b: Bytes)
    requires |b| >= HEADER_SIZE && HasMagic(b)
    ensures b == Header(LengthField(b), KindField(b)) + b[HEADER_SIZE..]
  {
    BytesRoundTrip(b[6], b[7], b[8], b[9]);
    BytesRoundTrip(b[10], b[11], b[12], b[13]);
    assert b == b[..6] + [b[6], b[7], b[8], b[9]] + [b[10], b[11], b[12], b[13]] + b[HEADER_SIZE..];
  }

  lemma FieldsOfPrefix(b: Bytes, more: Bytes)
    requires |b| >= HEADER_SIZE
    ensures HasMagic(b + more) == HasMagic(b)
    ensures LengthField(b + more) == LengthField(b) && KindField(b + more) == KindField(b)
  {
    assert (b + more)[..6] == b[..6];
  }

  /** The bytes of a sequence of frames, in order. */
  function EncodeAll(fs: seq<Message>): Bytes {
    Concatenated(fs)
  }

  function Concatenated(fs: seq<Message>): Bytes {
    if fs == [] then [] else Concatenated(fs[..|fs| - 1]) + Encode(fs[|fs| - 1])
  }

  lemma EncodeAllSnoc(fs: seq<Message>, f: Message)
    ensures EncodeAll(fs + [f]) == EncodeAll(fs) + Encode(f) && EncodeAll([]) == []
  {
    assert (fs + [f])[..|fs|] == fs;
  }
}
