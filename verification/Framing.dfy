/**
  * Messages on the byte stream (Block Exchange Protocol v1, "Pre-authentication Messages" and
  * "Post-authentication Messages"): a hello, then frames of header and body, each with its length.
  */
module Framing {
  import opened SyncTypes

  const HELLO_MAGIC: nat := 0x2EA7D90B

  /** The message types that have a branch in the reading loop. */
  datatype Kind = ClusterConfig | Index | IndexUpdate | Request | Response | Ping | Close

  datatype Header = Header(number: int, compression: int)

  datatype Message<+T> = Message(kind: Kind, content: T)

  /** Protobuf of hellos and bodies, and LZ4, as far as they are not a matter of this module. */
  datatype Codec<!H, !T> = Codec(
    encodeHello: H -> Bytes,
    decodeHello: Bytes -> Option<H>,
    encode: (Kind, T) -> Bytes,
    decode: (Kind, Bytes) -> Option<T>,
    inflate: Bytes -> Option<Bytes>)

  function Number(kind: Kind): (n: nat)
    ensures n < 8
  {
    match kind
    case ClusterConfig => 0
    case Index => 1
    case IndexUpdate => 2
    case Request => 3
    case Response => 4
    case Ping => 6
    case Close => 7
  }

  /** Number 5, a download progress, has no branch. */
  function KindOf(number: int): Option<Kind> {
    match number
    case 0 => Some(ClusterConfig)
    case 1 => Some(Index)
    case 2 => Some(IndexUpdate)
    case 3 => Some(Request)
    case 4 => Some(Response)
    case 6 => Some(Ping)
    case 7 => Some(Close)
    case _ => None
  }

  /** The header's protobuf encoding: fields that are zero are left out. */
  function HeaderBytes(kind: Kind): (b: Bytes)
    ensures |b| <= 2
  {
    if kind == ClusterConfig then [] else [8, Number(kind)]
  }

  // ---------------------------------------------------------------------------
  // Reading a header's protobuf
  // ---------------------------------------------------------------------------

  datatype Parsed<+V> = Parsed(value: V, rest: Bytes)

  /** A varint of at most ten bytes and 64 bits, seven bits a byte, low ones first; k bytes of it are read. */
  function Varint(b: Bytes, k: nat): (r: Option<Parsed<nat>>)
    ensures r.Some? ==> |r.value.rest| < |b|
    decreases |b|
  {
    if b == [] || k == 10 then None
    else if b[0] < 128 then if k == 9 && b[0] >= 2 then None else Some(Parsed(b[0], b[1..]))
    else
      match Varint(b[1..], k + 1)
      case None => None
      case Some(p) => Some(Parsed(b[0] - 128 + 128 * p.value, p.rest))
  }

  /** The low 32 bits of a number, read as signed. */
  function Int32(n: nat): int {
    var low := n % 0x1_0000_0000;
    if low < 0x8000_0000 then low else low - 0x1_0000_0000
  }

  function Drop(b: Bytes, n: nat): Option<Bytes> {
    if n <= |b| then Some(b[n..]) else None
  }

  /** What is left after the value of an unknown field of this wire type. */
  function SkipValue(wire: nat, b: Bytes): (r: Option<Bytes>)
    ensures r.Some? ==> |r.value| <= |b|
  {
    match wire
    case 0 => (match Varint(b, 0) case None => None case Some(p) => Some(p.rest))
    case 1 => Drop(b, 8)
    case 2 => (match Varint(b, 0) case None => None case Some(p) => Drop(p.rest, p.value))
    case 5 => Drop(b, 4)
    case _ => None
  }

  /** The fields of a header from here on: number 1 is the type, number 2 the compression, the last of each counts. */
  function ReadFields(b: Bytes, header: Header): Option<Header>
    decreases |b|
  {
    if b == [] then Some(header)
    else
      match Varint(b, 0)
      case None => None
      case Some(key) =>
        var field, wire := key.value / 8, key.value % 8;
        if key.value > 0xffff_ffff || field == 0 then None
        else if field == 1 || field == 2 then
          match if wire == 0 then Varint(key.rest, 0) else None
          case None => None
          case Some(p) =>
            ReadFields(p.rest, if field == 1 then header.(number := Int32(p.value)) else header.(compression := Int32(p.value)))
        else
          match SkipValue(wire, key.rest)
          case None => None
          case Some(rest) => ReadFields(rest, header)
  }

  /** Fields that are absent are zero. */
  function DecodeHeader(b: Bytes): Option<Header> {
    ReadFields(b, Header(0, 0))
  }

  /** A number as protobuf writes it: seven bits a byte, low ones first, the high bit set but in the last. */
  function VarintBytes(n: nat): (b: Bytes)
    ensures b != []
  {
    if n < 128 then [n] else [128 + n % 128] + VarintBytes(n / 128)
  }

  /** What is left of 64 bits after k bytes of a varint. */
  function VarintLimit(k: nat): nat
    requires k <= 9
    decreases 9 - k
  {
    if k == 9 then 2 else 128 * VarintLimit(k + 1)
  }

  /** Every number of 64 bits is read back, and nothing after it is touched. */
  lemma {:induction false} VarintReadBack(n: nat, k: nat, tail: Bytes)
    requires k <= 9 && n < VarintLimit(k)
    ensures Varint(VarintBytes(n) + tail, k) == Some(Parsed(n, tail))
    decreases n
  {
    if n < 128 {
      assert ([n] + tail)[1..] == tail;
    } else {
      SevenBits(n, k);
      VarintReadBack(n / 128, k + 1, tail);
      assert VarintBytes(n) + tail == [128 + n % 128] + (VarintBytes(n / 128) + tail);
      VarintMore(n % 128, VarintBytes(n / 128) + tail, k);
    }
  }

  lemma SevenBits(n: nat, k: nat)
    requires k <= 9 && 128 <= n < VarintLimit(k)
    ensures k < 9 && n / 128 < VarintLimit(k + 1) && n % 128 + 128 * (n / 128) == n
  {
  }

  /** A byte with the high bit set, in front. */
  lemma VarintMore(low: nat, rest: Bytes, k: nat)
    requires low < 128 && k < 10
    ensures var r := Varint(rest, k + 1);
            Varint([128 + low] + rest, k) == if r.None? then None else Some(Parsed(low + 128 * r.value.value, r.value.rest))
  {
    assert ([128 + low] + rest)[1..] == rest;
  }

  /** And every larger one is refused. */
  lemma {:induction false} VarintRefused(n: nat, k: nat, tail: Bytes)
    requires k <= 9 && n >= VarintLimit(k)
    ensures Varint(VarintBytes(n) + tail, k) == None
    decreases n
  {
    if n >= 128 {
      assert VarintBytes(n) + tail == [128 + n % 128] + (VarintBytes(n / 128) + tail);
      VarintMore(n % 128, VarintBytes(n / 128) + tail, k);
      if k < 9 {
        SevenBitsMore(n, k);
        VarintRefused(n / 128, k + 1, tail);
      }
    } else {
      SmallLimit(k);
    }
  }

  lemma SevenBitsMore(n: nat, k: nat)
    requires k < 9 && n >= VarintLimit(k)
    ensures n / 128 >= VarintLimit(k + 1)
  {
  }

  lemma SmallLimit(k: nat)
    requires k <= 9
    ensures if k == 9 then VarintLimit(k) == 2 else VarintLimit(k) >= 256
    decreases 9 - k
  {
    if k < 9 {
      SmallLimit(k + 1);
    }
  }

  lemma VarintHolds64Bits()
    ensures VarintLimit(0) == 18446744073709551616
  {
    assert VarintLimit(5) == 2 * 128 * 128 * 128 * 128;
    assert VarintLimit(0) == VarintLimit(5) * 128 * 128 * 128 * 128 * 128;
  }

  /** A header as protobuf writes it. */
  function HeaderFields(number: nat, compression: nat): Bytes {
    (if number == 0 then [] else [8] + VarintBytes(number)) + if compression == 0 then [] else [16] + VarintBytes(compression)
  }

  /** One field of a header. */
  lemma ReadField(key: byte, value: nat, tail: Bytes, header: Header)
    requires (key == 8 || key == 16) && value < 18446744073709551616
    ensures ReadFields(([key] + VarintBytes(value)) + tail, header) ==
            ReadFields(tail, if key == 8 then header.(number := Int32(value)) else header.(compression := Int32(value)))
  {
    var b, after := ([key] + VarintBytes(value)) + tail, VarintBytes(value) + tail;
    VarintHolds64Bits();
    assert b == [key] + after;
    ReadSmallVarint(key, after);
    VarintReadBack(value, 0, tail);
    FieldRead(b, key, after, value, tail, header);
  }

  lemma ReadSmallVarint(value: byte, tail: Bytes)
    requires value < 128
    ensures Varint([value] + tail, 0) == Some(Parsed(value, tail))
  {
    assert ([value] + tail)[1..] == tail;
  }

  /** One step over a field of a header. */
  lemma FieldRead(b: Bytes, key: nat, after: Bytes, value: nat, rest: Bytes, header: Header)
    requires Varint(b, 0) == Some(Parsed(key, after)) && Varint(after, 0) == Some(Parsed(value, rest))
    requires key == 8 || key == 16
    ensures ReadFields(b, header) ==
            ReadFields(rest, if key == 8 then header.(number := Int32(value)) else header.(compression := Int32(value)))
  {
    assert b != [];
  }

  /** Headers are read back: their fields' low 32 bits, in two's complement. */
  lemma HeaderReadBack(number: nat, compression: nat)
    requires number < 18446744073709551616 && compression < 18446744073709551616
    ensures DecodeHeader(HeaderFields(number, compression)) == Some(Header(Int32(number), Int32(compression)))
  {
    var tail := if compression == 0 then [] else [16] + VarintBytes(compression);
    if number == 0 {
      assert HeaderFields(number, compression) == tail;
    } else {
      ReadField(8, number, tail, Header(0, 0));
    }
    if compression != 0 {
      ReadField(16, compression, [], Header(Int32(number), 0));
      assert tail + [] == tail;
    }
  }

  /** The value of a field of this wire type: a varint, eight bytes, a length and as many bytes, or four bytes. */
  ghost predicate ValueOf(wire: nat, payload: Bytes) {
    || (wire == 0 && exists n: nat :: n < 18446744073709551616 && payload == VarintBytes(n))
    || (wire == 1 && |payload| == 8)
    || (wire == 2 && exists x: Bytes :: |x| < 18446744073709551616 && payload == VarintBytes(|x|) + x)
    || (wire == 5 && |payload| == 4)
  }

  lemma SkipIs(wire: nat, payload: Bytes, tail: Bytes)
    requires ValueOf(wire, payload)
    ensures SkipValue(wire, payload + tail) == Some(tail)
  {
    VarintHolds64Bits();
    if wire == 0 {
      var n: nat :| n < 18446744073709551616 && payload == VarintBytes(n);
      VarintReadBack(n, 0, tail);
    } else if wire == 2 {
      var x: Bytes :| |x| < 18446744073709551616 && payload == VarintBytes(|x|) + x;
      assert payload + tail == VarintBytes(|x|) + (x + tail);
      VarintReadBack(|x|, 0, x + tail);
      assert (x + tail)[|x|..] == tail;
    } else {
      assert (payload + tail)[|payload|..] == tail;
    }
  }

  /** Fields that are not known are skipped. */
  lemma UnknownFieldSkipped(field: nat, wire: nat, payload: Bytes, tail: Bytes, header: Header)
    requires field >= 3 && wire < 8 && 8 * field + wire < 4294967296 && ValueOf(wire, payload)
    ensures ReadFields(VarintBytes(8 * field + wire) + (payload + tail), header) == ReadFields(tail, header)
  {
    var key := 8 * field + wire;
    VarintHolds64Bits();
    VarintReadBack(key, 0, payload + tail);
    SkipIs(wire, payload, tail);
    KeyParts(field, wire);
    UnknownRead(VarintBytes(key) + (payload + tail), key, payload + tail, field, wire, tail, header);
  }

  lemma KeyParts(field: nat, wire: nat)
    requires wire < 8
    ensures (8 * field + wire) / 8 == field && (8 * field + wire) % 8 == wire
  {
  }

  lemma UnknownRead(b: Bytes, key: nat, after: Bytes, field: nat, wire: nat, tail: Bytes, header: Header)
    requires Varint(b, 0) == Some(Parsed(key, after)) && SkipValue(wire, after) == Some(tail)
    requires key / 8 == field >= 3 && key % 8 == wire && key < 4294967296
    ensures ReadFields(b, header) == ReadFields(tail, header)
  {
    assert b != [];
  }

  lemma WrittenHeader(kind: Kind)
    ensures HeaderBytes(kind) == HeaderFields(Number(kind), 0)
    ensures DecodeHeader(HeaderBytes(kind)) == Some(Header(Number(kind), 0))
  {
    HeaderReadBack(Number(kind), 0);
  }

  /** What is asked of protobuf: values survive. */
  ghost predicate Faithful<H(!new), T(!new)>(c: Codec<H, T>) {
    && (forall h: H :: c.decodeHello(c.encodeHello(h)) == Some(h))
    && (forall kind: Kind, x: T :: c.decode(kind, c.encode(kind, x)) == Some(x))
  }

  // ---------------------------------------------------------------------------
  // Numbers, most significant byte first
  // ---------------------------------------------------------------------------

  /** Casting to 16 bits drops the rest. */
  function U16(n: nat): (b: Bytes)
    ensures |b| == 2
  {
    [n / 0x100 % 0x100, n % 0x100]
  }

  function U32(n: nat): (b: Bytes)
    ensures |b| == 4
  {
    U16(n / 0x1_0000) + U16(n)
  }

  function FromU16(b: Bytes): nat
    requires |b| == 2
  {
    b[0] as int * 0x100 + b[1]
  }

  function FromU32(b: Bytes): nat
    requires |b| == 4
  {
    FromU16(b[..2]) * 0x1_0000 + FromU16(b[2..])
  }

  lemma FromU16U16(n: nat)
    ensures FromU16(U16(n)) == n % 0x1_0000
  {
    Bytewise(n, n / 0x100, n % 0x100, n / 0x100 / 0x100, n / 0x100 % 0x100);
  }

  lemma Bytewise(n: nat, high: nat, low: nat, a: nat, b: nat)
    requires n == 0x100 * high + low && low < 0x100 && high == 0x100 * a + b && b < 0x100
    ensures b * 0x100 + low == n % 0x1_0000
  {
    var r := b * 0x100 + low;
    assert r < 0x1_0000;
    assert n == 0x1_0000 * a + r;
  }

  lemma Wordwise(n: nat, high: nat, low: nat, a: nat, b: nat)
    requires n == 0x1_0000 * high + low && low < 0x1_0000 && high == 0x1_0000 * a + b && b < 0x1_0000
    ensures b * 0x1_0000 + low == n % 0x1_0000_0000
  {
    var r := b * 0x1_0000 + low;
    assert r < 0x1_0000_0000;
    assert n == 0x1_0000_0000 * a + r;
  }

  lemma FromU32U32(n: nat)
    ensures FromU32(U32(n)) == n % 0x1_0000_0000
  {
    var high, low := n / 0x1_0000, n % 0x1_0000;
    assert U32(n)[..2] == U16(high) && U32(n)[2..] == U16(n);
    FromU16U16(high);
    FromU16U16(n);
    Wordwise(n, high, low, high / 0x1_0000, high % 0x1_0000);
  }

  // ---------------------------------------------------------------------------
  // Writing
  // ---------------------------------------------------------------------------

  function HelloFrame<H, T>(c: Codec<H, T>, hello: H): Bytes {
    var body := c.encodeHello(hello);
    U32(HELLO_MAGIC) + (U16(|body|) + body)
  }

  function Frame<H, T>(c: Codec<H, T>, m: Message<T>): (b: Bytes)
    ensures |b| >= 6
  {
    var header := HeaderBytes(m.kind);
    var body := c.encode(m.kind, m.content);
    U16(|header|) + (header + (U32(|body|) + body))
  }

  function Frames<H, T>(c: Codec<H, T>, ms: seq<Message<T>>): Bytes {
    if ms == [] then [] else Frame(c, ms[0]) + Frames(c, ms[1..])
  }

  method EncodeForBep<H, T>(c: Codec<H, T>, m: Message<T>) returns (buffer: Bytes)
    ensures buffer == Frame(c, m)
  {
    var header := HeaderBytes(m.kind);
    var body := c.encode(m.kind, m.content);
    buffer := U16(|header|);
    buffer := buffer + header;
    buffer := buffer + U32(|body|);
    buffer := buffer + body;
  }

  // ---------------------------------------------------------------------------
  // Reading
  // ---------------------------------------------------------------------------

  datatype Error =
    | StreamEnded
    | InvalidMagicBytes
    | BadHello
    | BadHeader
    | UnknownCompression
    | UnknownType
    | BadBlock // decompression panics
    | BadBody
    | TimedOut

  datatype Read<+V> = Got(value: V, rest: Bytes) | Bad(error: Error, rest: Bytes)

  function Exact(s: Bytes, n: nat): Read<Bytes> {
    if n <= |s| then Got(s[..n], s[n..]) else Bad(StreamEnded, [])
  }

  function ReadU16(s: Bytes): Read<nat> {
    match Exact(s, 2)
    case Got(b, rest) => Got(FromU16(b), rest)
    case Bad(error, rest) => Bad(error, rest)
  }

  function ReadU32(s: Bytes): Read<nat> {
    match Exact(s, 4)
    case Got(b, rest) => Got(FromU32(b), rest)
    case Bad(error, rest) => Bad(error, rest)
  }

  function ReadHello<H, T>(c: Codec<H, T>, s: Bytes): Read<H> {
    match ReadU32(s)
    case Bad(error, rest) => Bad(error, rest)
    case Got(magic, rest) =>
      if magic != HELLO_MAGIC then Bad(InvalidMagicBytes, rest)
      else
        match ReadU16(rest)
        case Bad(error, rest) => Bad(error, rest)
        case Got(len, rest) =>
          match Exact(rest, len)
          case Bad(error, rest) => Bad(error, rest)
          case Got(body, rest) =>
            match c.decodeHello(body)
            case None => Bad(BadHello, rest)
            case Some(hello) => Got(hello, rest)
  }

  function ReadHeader(s: Bytes): Read<Header> {
    match ReadU16(s)
    case Bad(error, rest) => Bad(error, rest)
    case Got(len, rest) =>
      match Exact(rest, len)
      case Bad(error, rest) => Bad(error, rest)
      case Got(b, rest) =>
        match DecodeHeader(b)
        case None => Bad(BadHeader, rest)
        case Some(header) => Got(header, rest)
  }

  function ReadBody<H, T>(c: Codec<H, T>, kind: Kind, compressed: bool, s: Bytes): Read<T> {
    match ReadU32(s)
    case Bad(error, rest) => Bad(error, rest)
    case Got(len, rest) =>
      match Exact(rest, len)
      case Bad(error, rest) => Bad(error, rest)
      case Got(raw, rest) =>
        match if compressed then c.inflate(raw) else Some(raw)
        case None => Bad(BadBlock, rest)
        case Some(body) =>
          match c.decode(kind, body)
          case None => Bad(BadBody, rest)
          case Some(content) => Got(content, rest)
  }

  /** Header, compression, type, body: each is looked at only once what is before it is fine. */
  function ReadMessage<H, T>(c: Codec<H, T>, s: Bytes): (r: Read<Message<T>>)
    ensures |r.rest| <= |s| && (r.Got? ==> |r.rest| < |s|)
  {
    match ReadHeader(s)
    case Bad(error, rest) => Bad(error, rest)
    case Got(header, rest) =>
      if header.compression != 0 && header.compression != 1 then Bad(UnknownCompression, rest)
      else
        match KindOf(header.number)
        case None => Bad(UnknownType, rest)
        case Some(kind) =>
          match ReadBody(c, kind, header.compression == 1, rest)
          case Bad(error, rest) => Bad(error, rest)
          case Got(content, rest) => Got(Message(kind, content), rest)
  }

  /** What the wait for the next frame ends with: its first bytes, the cancellation of the connection, or two minutes. */
  datatype Wait = Arrives | Cancels | TimesOut

  datatype End = Closed | Cancelled | Failed(error: Error)

  /** What a connection delivers: messages in order, why reading ended, and the bytes not read. */
  datatype Session<+T> = Session(messages: seq<Message<T>>, end: End, rest: Bytes)

  /** The reading loop from round k on. */
  function ReadAll<H, T>(c: Codec<H, T>, s: Bytes, waits: nat -> Wait, k: nat): Session<T>
    decreases |s|
  {
    match waits(k)
    case Cancels => Session([], Cancelled, s)
    case TimesOut => Session([], Failed(TimedOut), s)
    case Arrives =>
      match ReadMessage(c, s)
      case Bad(error, rest) => Session([], Failed(error), rest)
      case Got(m, rest) =>
        if m.kind == Close then Session([m], Closed, rest) else Prepend([m], ReadAll(c, rest, waits, k + 1))
  }

  function Prepend<T>(ms: seq<Message<T>>, session: Session<T>): Session<T> {
    session.(messages := ms + session.messages)
  }

  class InputStream {
    var rest: Bytes

    constructor (bytes: Bytes)
      ensures rest == bytes
    {
      rest := bytes;
    }

    method TakeExact(n: nat) returns (r: Option<Bytes>)
      modifies this
      ensures rest == Exact(old(rest), n).rest
      ensures r == if Exact(old(rest), n).Got? then Some(Exact(old(rest), n).value) else None
    {
      if n <= |rest| {
        r := Some(rest[..n]);
        rest := rest[n..];
      } else {
        r := None;
        rest := [];
      }
    }

    method TakeU16() returns (r: Option<nat>)
      modifies this
      ensures rest == ReadU16(old(rest)).rest
      ensures r == if ReadU16(old(rest)).Got? then Some(ReadU16(old(rest)).value) else None
    {
      var b := TakeExact(2);
      r := if b.Some? then Some(FromU16(b.value)) else None;
    }

    method TakeU32() returns (r: Option<nat>)
      modifies this
      ensures rest == ReadU32(old(rest)).rest
      ensures r == if ReadU32(old(rest)).Got? then Some(ReadU32(old(rest)).value) else None
    {
      var b := TakeExact(4);
      r := if b.Some? then Some(FromU32(b.value)) else None;
    }
  }

  method ReceiveHello<H, T>(c: Codec<H, T>, stream: InputStream) returns (r: Read<H>)
    modifies stream
    ensures r == ReadHello(c, old(stream.rest)) && stream.rest == r.rest
  {
    var magic := stream.TakeU32();
    if magic.None? {
      return Bad(StreamEnded, stream.rest);
    }
    if magic.value != HELLO_MAGIC {
      return Bad(InvalidMagicBytes, stream.rest);
    }
    var len := stream.TakeU16();
    if len.None? {
      return Bad(StreamEnded, stream.rest);
    }
    var body := stream.TakeExact(len.value);
    if body.None? {
      return Bad(StreamEnded, stream.rest);
    }
    var hello := c.decodeHello(body.value);
    r := if hello.None? then Bad(BadHello, stream.rest) else Got(hello.value, stream.rest);
  }

  method ReceiveMessage<H, T>(c: Codec<H, T>, stream: InputStream, kind: Kind, compressed: bool) returns (r: Read<T>)
    modifies stream
    ensures r == ReadBody(c, kind, compressed, old(stream.rest)) && stream.rest == r.rest
  {
    var len := stream.TakeU32();
    if len.None? {
      return Bad(StreamEnded, stream.rest);
    }
    var raw := stream.TakeExact(len.value);
    if raw.None? {
      return Bad(StreamEnded, stream.rest);
    }
    var body := raw;
    if compressed {
      body := c.inflate(raw.value);
      if body.None? {
        return Bad(BadBlock, stream.rest);
      }
    }
    var content := c.decode(kind, body.value);
    r := if content.None? then Bad(BadBody, stream.rest) else Got(content.value, stream.rest);
  }

  method ReceiveHeader(stream: InputStream) returns (r: Read<Header>)
    modifies stream
    ensures r == ReadHeader(old(stream.rest)) && stream.rest == r.rest
  {
    var len := stream.TakeU16();
    if len.None? {
      return Bad(StreamEnded, stream.rest);
    }
    var b := stream.TakeExact(len.value);
    if b.None? {
      return Bad(StreamEnded, stream.rest);
    }
    var header := DecodeHeader(b.value);
    r := if header.None? then Bad(BadHeader, stream.rest) else Got(header.value, stream.rest);
  }

  /** One round of the reading loop, up to the message it hands on. */
  method ReceiveNext<H, T>(c: Codec<H, T>, stream: InputStream) returns (r: Read<Message<T>>)
    modifies stream
    ensures r == ReadMessage(c, old(stream.rest)) && stream.rest == r.rest
  {
    var header := ReceiveHeader(stream);
    if header.Bad? {
      return Bad(header.error, stream.rest);
    }
    if header.value.compression != 0 && header.value.compression != 1 {
      return Bad(UnknownCompression, stream.rest);
    }
    var kind := KindOf(header.value.number);
    if kind.None? {
      return Bad(UnknownType, stream.rest);
    }
    var content := ReceiveMessage(c, stream, kind.value, header.value.compression == 1);
    r := if content.Bad? then Bad(content.error, stream.rest) else Got(Message(kind.value, content.value), stream.rest);
  }

  /** The reading loop, after the hello. */
  method HandleReading<H, T>(c: Codec<H, T>, stream: InputStream, waits: nat -> Wait) returns (session: Session<T>)
    modifies stream
    ensures session == ReadAll(c, old(stream.rest), waits, 0) && stream.rest == session.rest
  {
    var handled: seq<Message<T>> := [];
    var k := 0;
    while true
      invariant ReadAll(c, old(stream.rest), waits, 0) == Prepend(handled, ReadAll(c, stream.rest, waits, k))
      decreases |stream.rest|
    {
      ghost var before := stream.rest;
      Round(c, handled, before, waits, k);
      if waits(k) == Cancels {
        return Session(handled, Cancelled, stream.rest);
      }
      if waits(k) == TimesOut {
        return Session(handled, Failed(TimedOut), stream.rest);
      }
      var next := ReceiveNext(c, stream);
      if next.Bad? {
        return Session(handled, Failed(next.error), stream.rest);
      }
      if next.value.kind == Close {
        return Session(handled + [next.value], Closed, stream.rest);
      }
      handled := handled + [next.value];
      k := k + 1;
    }
  }

  lemma Round<H, T>(c: Codec<H, T>, handled: seq<Message<T>>, s: Bytes, waits: nat -> Wait, k: nat)
    ensures Prepend(handled, ReadAll(c, s, waits, k)) ==
            if waits(k) == Cancels then Session(handled, Cancelled, s)
            else if waits(k) == TimesOut then Session(handled, Failed(TimedOut), s)
            else
              match ReadMessage(c, s) {
                case Bad(error, rest) => Session(handled, Failed(error), rest)
                case Got(m, rest) =>
                  if m.kind == Close then Session(handled + [m], Closed, rest)
                  else Prepend(handled + [m], ReadAll(c, rest, waits, k + 1))
              }
  {
    var r := ReadMessage(c, s);
    if waits(k) == Arrives && r.Got? {
      PrependMore(handled, r.value, ReadAll(c, r.rest, waits, k + 1));
    } else {
      assert handled + [] == handled;
    }
  }

  lemma PrependMore<T>(handled: seq<Message<T>>, m: Message<T>, session: Session<T>)
    ensures Prepend(handled, Prepend([m], session)) == Prepend(handled + [m], session)
  {
    assert handled + ([m] + session.messages) == handled + [m] + session.messages;
  }

  // ---------------------------------------------------------------------------
  // Reading what was written
  // ---------------------------------------------------------------------------

  ghost predicate Writable<H, T>(c: Codec<H, T>, m: Message<T>) {
    |c.encode(m.kind, m.content)| < 0x1_0000_0000
  }

  lemma ExactPrefix(a: Bytes, b: Bytes)
    ensures Exact(a + b, |a|) == Got(a, b)
  {
    assert (a + b)[..|a|] == a && (a + b)[|a|..] == b;
  }

  lemma ReadHeaderFrame(kind: Kind, tail: Bytes)
    ensures var header := HeaderBytes(kind);
            ReadHeader(U16(|header|) + (header + tail)) == Got(Header(Number(kind), 0), tail)
  {
    WrittenHeader(kind);
    ReadAnyHeader(HeaderBytes(kind), tail);
  }

  lemma ReadBodyFrame<H(!new), T(!new)>(c: Codec<H, T>, m: Message<T>, tail: Bytes)
    requires Faithful(c) && Writable(c, m)
    ensures var body := c.encode(m.kind, m.content);
            ReadBody(c, m.kind, false, U32(|body|) + (body + tail)) == Got(m.content, tail)
  {
    ReadLong(c.encode(m.kind, m.content), tail);
  }

  /** Bytes that fit a length field, read back. */
  lemma ReadLong(raw: Bytes, tail: Bytes)
    requires |raw| < 0x1_0000_0000
    ensures ReadU32(U32(|raw|) + (raw + tail)) == Got(|raw|, raw + tail) && Exact(raw + tail, |raw|) == Got(raw, tail)
  {
    ExactPrefix(U32(|raw|), raw + tail);
    FromU32U32(|raw|);
    ExactPrefix(raw, tail);
  }

  lemma FrameThenTail<H, T>(c: Codec<H, T>, m: Message<T>, tail: Bytes)
    ensures var header, body := HeaderBytes(m.kind), c.encode(m.kind, m.content);
            Frame(c, m) + tail == U16(|header|) + (header + (U32(|body|) + (body + tail)))
  {
    var header, body := HeaderBytes(m.kind), c.encode(m.kind, m.content);
    assert Frame(c, m) + tail == U16(|header|) + (header + (U32(|body|) + body) + tail);
    assert header + (U32(|body|) + body) + tail == header + (U32(|body|) + (body + tail));
  }

  /** A frame is read back as its message, whatever follows it, and nothing of what follows is touched. */
  lemma ReadFrame<H(!new), T(!new)>(c: Codec<H, T>, m: Message<T>, tail: Bytes)
    requires Faithful(c) && Writable(c, m)
    ensures ReadMessage(c, Frame(c, m) + tail) == Got(m, tail)
  {
    var body := c.encode(m.kind, m.content);
    FrameThenTail(c, m, tail);
    ReadHeaderFrame(m.kind, U32(|body|) + (body + tail));
    ReadBodyFrame(c, m, tail);
  }

  // ---------------------------------------------------------------------------
  // The bytes in full
  // ---------------------------------------------------------------------------

  function BigEndian(n: nat): Bytes {
    [n / 16777216 % 256, n / 65536 % 256, n / 256 % 256, n % 256]
  }

  lemma U32IsBigEndian(n: nat)
    ensures U32(n) == BigEndian(n)
  {
    assert n / 65536 / 256 == n / 16777216;
  }

  /** The first bytes of a frame, up to its body's length. */
  function FrameHead(kind: Kind): Bytes {
    match kind
    case ClusterConfig => [0, 0]
    case Index => [0, 2, 8, 1]
    case IndexUpdate => [0, 2, 8, 2]
    case Request => [0, 2, 8, 3]
    case Response => [0, 2, 8, 4]
    case Ping => [0, 2, 8, 6]
    case Close => [0, 2, 8, 7]
  }

  lemma FrameIs<H, T>(c: Codec<H, T>, m: Message<T>)
    ensures var body := c.encode(m.kind, m.content);
            Frame(c, m) == FrameHead(m.kind) + BigEndian(|body|) + body
  {
    var header, body := HeaderBytes(m.kind), c.encode(m.kind, m.content);
    U32IsBigEndian(|body|);
    assert U16(|header|) == [0, |header|];
    assert U16(|header|) + header == FrameHead(m.kind);
    assert Frame(c, m) == U16(|header|) + header + U32(|body|) + body;
  }

  lemma HelloFrameIs<H, T>(c: Codec<H, T>, hello: H)
    ensures var body := c.encodeHello(hello);
            HelloFrame(c, hello) == [0x2E, 0xA7, 0xD9, 0x0B] + [|body| / 256 % 256, |body| % 256] + body
  {
    U32IsBigEndian(HELLO_MAGIC);
    assert BigEndian(HELLO_MAGIC) == [0x2E, 0xA7, 0xD9, 0x0B];
  }

  function Number16(s: Bytes, i: nat): nat
    requires i + 2 <= |s|
  {
    s[i] as int * 256 + s[i + 1]
  }

  function Number32(s: Bytes, i: nat): nat
    requires i + 4 <= |s|
  {
    s[i] as int * 16777216 + s[i + 1] as int * 65536 + s[i + 2] as int * 256 + s[i + 3]
  }

  /** What becomes of any bytes as a hello: magic, length and body by position, and the error of the first that is wrong. */
  lemma HelloByPosition<H, T>(c: Codec<H, T>, s: Bytes)
    ensures ReadHello(c, s) ==
            if |s| < 4 then Bad(StreamEnded, [])
            else if s[..4] != [0x2E, 0xA7, 0xD9, 0x0B] then Bad(InvalidMagicBytes, s[4..])
            else if |s| < 6 || |s| < 6 + Number16(s, 4) then Bad(StreamEnded, [])
            else
              var n := 6 + Number16(s, 4);
              if c.decodeHello(s[6..n]).None? then Bad(BadHello, s[n..]) else Got(c.decodeHello(s[6..n]).value, s[n..])
  {
    if |s| >= 4 {
      MagicByPosition(s);
      if |s| >= 6 {
        LengthByPosition(s, 4);
        var n := 6 + Number16(s, 4);
        assert s[4..][2..] == s[6..];
        if |s| >= n {
          assert s[6..][..n - 6] == s[6..n] && s[6..][n - 6..] == s[n..];
        }
      }
    }
  }

  lemma MagicByPosition(s: Bytes)
    requires |s| >= 4
    ensures ReadU32(s) == Got(Number32(s, 0), s[4..])
    ensures Number32(s, 0) == HELLO_MAGIC <==> s[..4] == [0x2E, 0xA7, 0xD9, 0x0B]
  {
    Long32(s, 0);
    assert s[0..] == s;
  }

  lemma LengthByPosition(s: Bytes, i: nat)
    requires i + 2 <= |s|
    ensures ReadU16(s[i..]) == Got(Number16(s, i), s[i..][2..])
  {
  }

  lemma Long32(s: Bytes, i: nat)
    requires i + 4 <= |s|
    ensures ReadU32(s[i..]) == Got(Number32(s, i), s[i..][4..])
  {
    var b := s[i..][..4];
    assert b[..2] == [s[i], s[i + 1]] && b[2..] == [s[i + 2], s[i + 3]];
  }

  /** The kinds of message by their number on the wire. */
  function KindByNumber(number: int): Option<Kind> {
    if number == 0 then Some(ClusterConfig) else if number == 1 then Some(Index) else if number == 2 then Some(IndexUpdate)
    else if number == 3 then Some(Request) else if number == 4 then Some(Response) else if number == 6 then Some(Ping)
    else if number == 7 then Some(Close) else None
  }

  /** What becomes of any bytes as a body that starts with its length. */
  lemma BodyByPosition<H, T>(c: Codec<H, T>, kind: Kind, compressed: bool, s: Bytes)
    ensures ReadBody(c, kind, compressed, s) ==
            if |s| < 4 || |s| < 4 + Number32(s, 0) then Bad(StreamEnded, [])
            else
              var n := 4 + Number32(s, 0);
              var body := if compressed then c.inflate(s[4..n]) else Some(s[4..n]);
              if body.None? then Bad(BadBlock, s[n..])
              else if c.decode(kind, body.value).None? then Bad(BadBody, s[n..])
              else Got(c.decode(kind, body.value).value, s[n..])
  {
    if |s| >= 4 {
      Long32(s, 0);
      assert s[0..] == s;
      var n := 4 + Number32(s, 0);
      if |s| >= n {
        assert s[4..][..n - 4] == s[4..n] && s[4..][n - 4..] == s[n..];
      }
    }
  }

  /** And as a message: its header by position, then compression, type and body; the first that is wrong decides. */
  lemma MessageByPosition<H, T>(c: Codec<H, T>, s: Bytes)
    ensures ReadMessage(c, s) ==
            if |s| < 2 || |s| < 2 + Number16(s, 0) then Bad(StreamEnded, [])
            else
              var n := 2 + Number16(s, 0);
              var header := DecodeHeader(s[2..n]);
              if header.None? then Bad(BadHeader, s[n..])
              else if header.value.compression != 0 && header.value.compression != 1 then Bad(UnknownCompression, s[n..])
              else if KindByNumber(header.value.number).None? then Bad(UnknownType, s[n..])
              else
                var kind := KindByNumber(header.value.number).value;
                match ReadBody(c, kind, header.value.compression == 1, s[n..]) {
                  case Bad(error, rest) => Bad(error, rest)
                  case Got(content, rest) => Got(Message(kind, content), rest)
                }
  {
    if |s| >= 2 {
      LengthByPosition(s, 0);
      assert s[0..] == s;
      var n := 2 + Number16(s, 0);
      if |s| >= n {
        assert s[2..][..n - 2] == s[2..n] && s[2..][n - 2..] == s[n..];
      }
    }
  }

  lemma ReadAnyHeader(header: Bytes, tail: Bytes)
    requires |header| < 0x1_0000 && DecodeHeader(header).Some?
    ensures ReadHeader(U16(|header|) + (header + tail)) == Got(DecodeHeader(header).value, tail)
  {
    ReadShort(header, tail);
  }

  lemma ReadShort(raw: Bytes, tail: Bytes)
    requires |raw| < 0x1_0000
    ensures ReadU16(U16(|raw|) + (raw + tail)) == Got(|raw|, raw + tail) && Exact(raw + tail, |raw|) == Got(raw, tail)
  {
    ExactPrefix(U16(|raw|), raw + tail);
    FromU16U16(|raw|);
    ExactPrefix(raw, tail);
  }

  /** A compressed frame, which only other clients write: its body is inflated before it is decoded. */
  lemma ReadCompressed<H(!new), T(!new)>(c: Codec<H, T>, m: Message<T>, raw: Bytes, tail: Bytes)
    requires Faithful(c) && |raw| < 0x1_0000_0000 && c.inflate(raw) == Some(c.encode(m.kind, m.content))
    ensures var header := HeaderFields(Number(m.kind), 1);
            ReadMessage(c, U16(|header|) + (header + (U32(|raw|) + (raw + tail)))) == Got(m, tail)
  {
    var header := HeaderFields(Number(m.kind), 1);
    HeaderReadBack(Number(m.kind), 1);
    assert |header| <= 4;
    ReadCompressedAfter(c, m, header, raw, tail);
  }

  lemma ReadCompressedAfter<H(!new), T(!new)>(c: Codec<H, T>, m: Message<T>, header: Bytes, raw: Bytes, tail: Bytes)
    requires Faithful(c) && |raw| < 0x1_0000_0000 && c.inflate(raw) == Some(c.encode(m.kind, m.content))
    requires |header| < 0x1_0000 && DecodeHeader(header) == Some(Header(Number(m.kind), 1))
    ensures ReadMessage(c, U16(|header|) + (header + (U32(|raw|) + (raw + tail)))) == Got(m, tail)
  {
    var rest := U32(|raw|) + (raw + tail);
    ReadAnyHeader(header, rest);
    ReadCompressedBody(c, m, raw, tail);
    HeaderThenBody(c, U16(|header|) + (header + rest), m, rest, tail);
  }

  lemma HeaderThenBody<H, T>(c: Codec<H, T>, s: Bytes, m: Message<T>, rest: Bytes, tail: Bytes)
    requires ReadHeader(s) == Got(Header(Number(m.kind), 1), rest)
    requires ReadBody(c, m.kind, true, rest) == Got(m.content, tail)
    ensures ReadMessage(c, s) == Got(m, tail)
  {
  }

  lemma ReadCompressedBody<H(!new), T(!new)>(c: Codec<H, T>, m: Message<T>, raw: Bytes, tail: Bytes)
    requires Faithful(c) && |raw| < 0x1_0000_0000 && c.inflate(raw) == Some(c.encode(m.kind, m.content))
    ensures ReadBody(c, m.kind, true, U32(|raw|) + (raw + tail)) == Got(m.content, tail)
  {
    ReadLong(raw, tail);
  }

  /** As much of a length as the length field can say. */
  function Fitting(n: nat): (k: nat)
    ensures k <= n && (k == n <==> n < 0x1_0000_0000)
  {
    n % 0x1_0000_0000
  }

  lemma BodyLeaves<H, T>(c: Codec<H, T>, kind: Kind, body: Bytes)
    ensures var n, r := Fitting(|body|), ReadBody(c, kind, false, U32(|body|) + body);
            && r.rest == body[n..]
            && (c.decode(kind, body[..n]).Some? ==> r == Got(c.decode(kind, body[..n]).value, body[n..]))
  {
    ExactPrefix(U32(|body|), body);
    FromU32U32(|body|);
  }

  lemma PlainFrame<H, T>(c: Codec<H, T>, m: Message<T>)
    ensures var header, body := HeaderBytes(m.kind), c.encode(m.kind, m.content);
            Frame(c, m) == U16(|header|) + (header + (U32(|body|) + body))
  {
  }

  /** Reading a frame takes as much of its body as the length field can say; the rest is taken for the next frame. */
  lemma FrameLeaves<H(!new), T(!new)>(c: Codec<H, T>, m: Message<T>)
    requires Faithful(c)
    ensures var body := c.encode(m.kind, m.content);
            var n, r := Fitting(|body|), ReadMessage(c, Frame(c, m));
            && r.rest == body[n..]
            && (c.decode(m.kind, body[..n]).Some? ==> r == Got(Message(m.kind, c.decode(m.kind, body[..n]).value), body[n..]))
  {
    var body := c.encode(m.kind, m.content);
    PlainFrame(c, m);
    ReadHeaderFrame(m.kind, U32(|body|) + body);
    BodyLeaves(c, m.kind, body);
  }

  /** A body that does not fit the length field leaves bytes behind. */
  lemma FrameConsumedIff<H(!new), T(!new)>(c: Codec<H, T>, m: Message<T>)
    requires Faithful(c)
    ensures ReadMessage(c, Frame(c, m)).rest == [] <==> Writable(c, m)
  {
    FrameLeaves(c, m);
    assert Fitting(|c.encode(m.kind, m.content)|) <= |c.encode(m.kind, m.content)|;
  }

  /** The encodings that leave bytes as they are. */
  function PlainCodec(): Codec<Bytes, Bytes> {
    Codec((hello: Bytes) => hello,
          (b: Bytes) => Some(b),
          (kind: Kind, x: Bytes) => x,
          (kind: Kind, b: Bytes) => Some(b),
          (b: Bytes) => Some(b))
  }

  function Zeros(n: nat): (b: Bytes)
    ensures |b| == n
  {
    seq(n, i => 0)
  }

  /**
    * Such a body exists: of 2^32 zero bytes the reader hears an empty message of their kind, and then what
    * nobody wrote, an empty cluster configuration for every six of the bytes left behind.
    */
  lemma LongBodyIsMisread(kind: Kind, n: nat)
    requires n == 0x1_0000_0000
    ensures var c, m := PlainCodec(), Message(kind, Zeros(n));
            && Faithful(c) && !Writable(c, m)
            && ReadMessage(c, Frame(c, m)) == Got(Message(kind, []), Zeros(n))
            && ReadMessage(c, Zeros(n)) == Got(Message(ClusterConfig, []), Zeros(n - 6))
  {
    LongBodyIsLeft(kind, n);
    ZerosSplit(n);
    ZerosAreConfigs(n - 6);
  }

  lemma LongBodyIsLeft(kind: Kind, n: nat)
    requires n == 0x1_0000_0000
    ensures var c, m := PlainCodec(), Message(kind, Zeros(n));
            Faithful(c) && !Writable(c, m) && ReadMessage(c, Frame(c, m)) == Got(Message(kind, []), Zeros(n))
  {
    PlainLeaves(kind, Zeros(n));
    NothingFits();
    assert Zeros(n)[..0] == [] && Zeros(n)[0..] == Zeros(n);
  }

  lemma NothingFits()
    ensures Fitting(0x1_0000_0000) == 0
  {
  }

  lemma PlainLeaves(kind: Kind, body: Bytes)
    ensures var c, n := PlainCodec(), Fitting(|body|);
            && Faithful(c)
            && ReadMessage(c, Frame(c, Message(kind, body))) == Got(Message(kind, body[..n]), body[n..])
  {
    PlainIsFaithful();
    PlainEncodes(kind, body);
    PlainEncodes(kind, body[..Fitting(|body|)]);
    FrameLeavesAs(PlainCodec(), kind, body, body, body[..Fitting(|body|)]);
  }

  lemma FrameLeavesAs<H(!new), T(!new)>(c: Codec<H, T>, kind: Kind, content: T, body: Bytes, heard: T)
    requires Faithful(c) && c.encode(kind, content) == body && c.decode(kind, body[..Fitting(|body|)]) == Some(heard)
    ensures ReadMessage(c, Frame(c, Message(kind, content))) == Got(Message(kind, heard), body[Fitting(|body|)..])
  {
    FrameLeaves(c, Message(kind, content));
  }

  lemma PlainIsFaithful()
    ensures Faithful(PlainCodec())
  {
  }

  lemma PlainEncodes(kind: Kind, b: Bytes)
    ensures PlainCodec().encode(kind, b) == b && PlainCodec().decode(kind, b) == Some(b)
  {
  }

  lemma ZerosSplit(n: nat)
    requires n >= 6
    ensures Zeros(6) + Zeros(n - 6) == Zeros(n)
  {
  }

  lemma ZerosAreConfigs(n: nat)
    ensures ReadMessage(PlainCodec(), Zeros(6) + Zeros(n)) == Got(Message(ClusterConfig, []), Zeros(n))
  {
    var c, m := PlainCodec(), Message(ClusterConfig, []);
    assert U16(0) == [0, 0] && Frame(c, m) == [0, 0] + ([] + ([0, 0] + [0, 0] + []));
    assert Frame(c, m) == Zeros(6);
    ReadFrame(c, m, Zeros(n));
  }

  /** Bytes that start with a frame start with no other. */
  lemma FrameIsUnique<H(!new), T(!new)>(c: Codec<H, T>, m: Message<T>, a: Bytes, n: Message<T>, b: Bytes)
    requires Faithful(c) && Writable(c, m) && Writable(c, n)
    requires Frame(c, m) + a == Frame(c, n) + b
    ensures m == n && a == b
  {
    ReadFrame(c, m, a);
    ReadFrame(c, n, b);
  }

  /** No frame is a proper prefix of another. */
  lemma FramesArePrefixFree<H(!new), T(!new)>(c: Codec<H, T>, m: Message<T>, n: Message<T>)
    requires Faithful(c) && Writable(c, m) && Writable(c, n)
    ensures Frame(c, m) <= Frame(c, n) <==> m == n
  {
    if Frame(c, m) <= Frame(c, n) {
      var tail := Frame(c, n)[|Frame(c, m)|..];
      assert Frame(c, m) + tail == Frame(c, n) + [];
      FrameIsUnique(c, m, tail, n, []);
    }
  }

  ghost predicate AllWritable<H, T>(c: Codec<H, T>, ms: seq<Message<T>>) {
    forall i :: 0 <= i < |ms| ==> Writable(c, ms[i])
  }

  /** Different sequences of messages never share their bytes. */
  lemma {:induction false} FramesInjective<H(!new), T(!new)>(c: Codec<H, T>, ms: seq<Message<T>>, ns: seq<Message<T>>)
    requires Faithful(c) && AllWritable(c, ms) && AllWritable(c, ns)
    requires Frames(c, ms) == Frames(c, ns)
    ensures ms == ns
    decreases |ms|
  {
    if ms != [] && ns != [] {
      FrameIsUnique(c, ms[0], Frames(c, ms[1..]), ns[0], Frames(c, ns[1..]));
      FramesInjective(c, ms[1..], ns[1..]);
      assert ms == [ms[0]] + ms[1..] && ns == [ns[0]] + ns[1..];
    }
  }

  /** The messages up to and including the first close, or up to a wait in vain: there the reader stops. */
  function Heard<T>(ms: seq<Message<T>>, waits: nat -> Wait, k: nat): (heard: seq<Message<T>>)
    ensures heard <= ms
    decreases |ms|
  {
    if ms == [] || waits(k) != Arrives then []
    else if ms[0].kind == Close then ms[..1]
    else ms[..1] + Heard(ms[1..], waits, k + 1)
  }

  /** A message is heard exactly when no close comes before it and no wait up to it is in vain. */
  lemma {:induction false} HeardIs<T>(ms: seq<Message<T>>, waits: nat -> Wait, k: nat, i: nat)
    requires i < |ms|
    ensures i < |Heard(ms, waits, k)| <==>
            && (forall j :: 0 <= j < i ==> ms[j].kind != Close)
            && (forall j :: k <= j <= k + i ==> waits(j) == Arrives)
    decreases |ms|
  {
    if waits(k) == Arrives && i > 0 && ms[0].kind != Close {
      HeardIs(ms[1..], waits, k + 1, i - 1);
      assert forall j :: 0 <= j < i - 1 ==> ms[1..][j] == ms[j + 1];
      assert forall j :: 0 < j < i ==> ms[j] == ms[1..][j - 1];
    }
  }

  /** Why reading these messages and nothing more ends. */
  function EndOf<T>(ms: seq<Message<T>>, waits: nat -> Wait, k: nat): End
    decreases |ms|
  {
    match waits(k)
    case Cancels => Cancelled
    case TimesOut => Failed(TimedOut)
    case Arrives =>
      if ms == [] then Failed(StreamEnded)
      else if ms[0].kind == Close then Closed
      else EndOf(ms[1..], waits, k + 1)
  }

  /** The reader hears what was written, in order, until a close, a wait in vain or the end, and leaves what comes after it. */
  lemma {:induction false} ReadFrames<H(!new), T(!new)>(c: Codec<H, T>, ms: seq<Message<T>>, waits: nat -> Wait, k: nat)
    requires Faithful(c) && AllWritable(c, ms)
    ensures var session := ReadAll(c, Frames(c, ms), waits, k);
            && session.messages == Heard(ms, waits, k)
            && session.end == EndOf(ms, waits, k)
            && session.rest == Frames(c, ms[|Heard(ms, waits, k)|..])
    decreases |ms|
  {
    if ms != [] && waits(k) == Arrives {
      var rest := ms[1..];
      ReadFirst(c, ms, waits, k);
      if ms[0].kind != Close {
        ReadFrames(c, rest, waits, k + 1);
        HeardFirst(ms, waits, k);
      }
    }
  }

  lemma HeardFirst<T>(ms: seq<Message<T>>, waits: nat -> Wait, k: nat)
    requires ms != [] && waits(k) == Arrives && ms[0].kind != Close
    ensures Heard(ms, waits, k) == ms[..1] + Heard(ms[1..], waits, k + 1)
    ensures ms[|Heard(ms, waits, k)|..] == ms[1..][|Heard(ms[1..], waits, k + 1)|..]
  {
  }

  lemma ReadFirst<H(!new), T(!new)>(c: Codec<H, T>, ms: seq<Message<T>>, waits: nat -> Wait, k: nat)
    requires Faithful(c) && ms != [] && Writable(c, ms[0]) && waits(k) == Arrives
    ensures var rest := Frames(c, ms[1..]);
            ReadAll(c, Frames(c, ms), waits, k) ==
            if ms[0].kind == Close then Session(ms[..1], Closed, rest) else Prepend(ms[..1], ReadAll(c, rest, waits, k + 1))
  {
    ReadFrame(c, ms[0], Frames(c, ms[1..]));
    assert ms[..1] == [ms[0]];
  }

  lemma ReadHelloFrame<H(!new), T(!new)>(c: Codec<H, T>, hello: H, tail: Bytes)
    requires Faithful(c) && |c.encodeHello(hello)| < 0x1_0000
    ensures ReadHello(c, HelloFrame(c, hello) + tail) == Got(hello, tail)
  {
    var body := c.encodeHello(hello);
    var after := U16(|body|) + (body + tail);
    assert HelloFrame(c, hello) + tail == U32(HELLO_MAGIC) + after;
    ReadMagic(after);
    ReadLength(|body|, body + tail);
    ExactPrefix(body, tail);
  }

  lemma ReadMagic(tail: Bytes)
    ensures ReadU32(U32(HELLO_MAGIC) + tail) == Got(HELLO_MAGIC, tail)
  {
    ExactPrefix(U32(HELLO_MAGIC), tail);
    FromU32U32(HELLO_MAGIC);
  }

  lemma ReadLength(n: nat, tail: Bytes)
    requires n < 0x1_0000
    ensures ReadU16(U16(n) + tail) == Got(n, tail)
  {
    ExactPrefix(U16(n), tail);
    FromU16U16(n);
  }

  /**
    * Unique decoding of a whole connection: from a hello and frames without a close in between, none of
    * them waited for in vain, the reader gets that hello and those messages and uses up every byte.
    */
  lemma ConnectionIsDecoded<H(!new), T(!new)>(c: Codec<H, T>, hello: H, ms: seq<Message<T>>, waits: nat -> Wait)
    requires Faithful(c) && |c.encodeHello(hello)| < 0x1_0000 && AllWritable(c, ms)
    requires forall i :: 0 <= i < |ms| - 1 ==> ms[i].kind != Close
    requires forall k :: 0 <= k < |ms| ==> waits(k) == Arrives
    ensures var bytes := HelloFrame(c, hello) + Frames(c, ms);
            && ReadHello(c, bytes) == Got(hello, Frames(c, ms))
            && ReadAll(c, Frames(c, ms), waits, 0).messages == ms
            && ReadAll(c, Frames(c, ms), waits, 0).rest == []
  {
    ReadHelloFrame(c, hello, Frames(c, ms));
    ReadFrames(c, ms, waits, 0);
    if ms != [] {
      HeardIs(ms, waits, 0, |ms| - 1);
    }
  }
}
