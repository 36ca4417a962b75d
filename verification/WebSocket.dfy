/** The WebSocket frame codec (sections 5.2 and 5.3 of RFC 6455) and the echo handler. */
module WebSocket {
  import opened Text

  const BUF_LEN := 0xFFFF

  const TEXT: bv8 := 0x01
  const BINARY: bv8 := 0x02
  const CLOSING: bv8 := 0x08
  const PING: bv8 := 0x09
  const PONG: bv8 := 0x0A

  /** wsFrameType: an opcode, or one of the two errors. */
  datatype FrameType = Frame(opcode: bv8) | Incomplete | Error

  predicate KnownOpcode(op: bv8) {
    op == TEXT || op == BINARY || op == CLOSING || op == PING || op == PONG
  }

  // ------------------------------------------------------------------------
  // Bytes and numbers.

  lemma NextByte(b: bv8)
    requires b as int < 255
    ensures (b + 1) as int == b as int + 1
  {}

  /** The byte with this value. */
  function Byte(n: nat): (b: bv8)
    requires n < 256
    ensures b as int == n
  {
    if n == 0 then 0
    else
      NextByte(Byte(n - 1));
      Byte(n - 1) + 1
  }

  lemma SmallByte(b: bv8)
    requires b as int < 128
    ensures b < 0x80 && b & 0x7F == b && b & 0x80 == 0 && (0x80 | b) & 0x7F == b && (0x80 | b) & 0x80 == 0x80
  {}

  lemma OpcodeByte(op: bv8)
    requires op < 0x10
    ensures (0x80 | op) & 0x70 == 0 && (0x80 | op) & 0x80 == 0x80 && (0x80 | op) & 0x0F == op && (0x80 | op) & 0xF0 == 0x80
  {}

  lemma NoMark(b: bv8)
    ensures 0 | b == b && 0 | (126 as bv8) == 126
  {}

  lemma XorTwice(x: bv8, k: bv8)
    ensures (x ^ k) ^ k == x
  {}

  /** ntohs of two bytes in the buffer. */
  function Net16(hi: bv8, lo: bv8): nat {
    hi as int * 256 + lo as int
  }

  // ------------------------------------------------------------------------
  // Frames, as RFC 6455 lays them out.

  /** The length field: 7 bits, or 126 and 16 bits; `mark` is the mask bit. */
  function LengthField(n: nat, mark: bv8): seq<bv8>
    requires n <= 0xFFFF
  {
    if n <= 125 then [mark | Byte(n)] else [mark | 126, Byte(n / 256), Byte(n % 256)]
  }

  function Masked(payload: seq<bv8>, key: seq<bv8>): (r: seq<bv8>)
    requires |key| == 4
    ensures |r| == |payload|
  {
    seq(|payload|, i requires 0 <= i < |payload| => payload[i] ^ key[i % 4])
  }

  /** Length of a client frame before its payload; a server frame has no key. */
  function HeaderSize(n: nat): nat {
    if n <= 125 then 6 else 8
  }

  /** A masked final frame, as a client sends it. */
  function ClientFrame(op: bv8, key: seq<bv8>, payload: seq<bv8>): seq<bv8>
    requires |key| == 4 && |payload| <= 0xFFFF
  {
    [0x80 | op] + LengthField(|payload|, 0x80) + key + Masked(payload, key)
  }

  /** FIN and opcode, and the length without a mask bit. */
  function ServerHeader(n: nat, op: bv8): (r: seq<bv8>)
    requires n <= 0xFFFF
    ensures |r| == HeaderSize(n) - 4
  {
    [0x80 | op] + LengthField(n, 0)
  }

  /** An unmasked final frame, as a server sends it. */
  function ServerFrame(op: bv8, payload: seq<bv8>): seq<bv8>
    requires |payload| <= 0xFFFF
  {
    ServerHeader(|payload|, op) + payload
  }

  /** A client's reading of the wire: opcode and payload of exactly one final, unmasked
      frame with the shortest length encoding; None for anything else. */
  function DecodeServerFrame(s: seq<bv8>): Option<(bv8, seq<bv8>)> {
    if |s| < 2 || s[0] & 0xF0 != 0x80 || s[1] & 0x80 != 0 then None
    else if s[1] == 126 then
      if |s| > 4 + 125 && |s| - 4 == Net16(s[2], s[3]) then Some((s[0] & 0x0F, s[4..])) else None
    else if s[1] != 127 && |s| - 2 == s[1] as int then Some((s[0] & 0x0F, s[2..]))
    else None
  }

  // ------------------------------------------------------------------------
  // Parsing.

  /** The frame type, the place of the payload and its length; 0 when there is none. */
  datatype Parsed = Parsed(kind: FrameType, start: nat, len: nat)

  /** getPayloadLength: length, extra bytes, and the type it may change. */
  function PayloadLength(s: seq<bv8>, op: bv8): (r: (nat, nat, FrameType))
    requires |s| >= 2
    ensures r.0 <= 0xFFFF && r.1 <= 2
  {
    var n := s[1] & 0x7F;
    if n == 0x7E && |s| < 4 then (0, 0, Incomplete)
    else if n == 0x7F && |s| < 10 then (0, 0, Incomplete)
    else if n == 0x7F then (0, 0, Error)
    else if n == 0x7E then (Net16(s[2], s[3]), 2, Frame(op))
    else (n as int, 0, Frame(op))
  }

  /** wsParseInputFrame */
  function ParseFrame(s: seq<bv8>): (r: Parsed)
    ensures r.len > 0 ==> 6 <= r.start && r.start + r.len <= |s|
  {
    if |s| < 2 then Parsed(Incomplete, 0, 0)
    else if s[0] & 0x70 != 0 || s[0] & 0x80 != 0x80 || s[1] & 0x80 != 0x80 then Parsed(Error, 0, 0)
    else
      var op := s[0] & 0x0F;
      if !KnownOpcode(op) then Parsed(Error, 0, 0)
      else
        var (len, extra, kind) := PayloadLength(s, op);
        if len == 0 then Parsed(kind, 0, 0)
        else if len + 6 + extra > |s| then Parsed(Incomplete, 0, 0)
        else Parsed(kind, 2 + extra + 4, len)
  }

  /** The buffer after parsing: the payload unmasked in place, everything else as it was. */
  function Unmasked(s: seq<bv8>, p: Parsed): (r: seq<bv8>)
    requires p.len > 0 ==> 6 <= p.start && p.start + p.len <= |s|
    ensures |r| == |s|
  {
    if p.len == 0 then s else UnmaskedAt(s, p.start, p.len)
  }

  /** The same with `len` payload bytes behind the key that ends at `start`. */
  function UnmaskedAt(s: seq<bv8>, start: nat, len: nat): (r: seq<bv8>)
    requires 4 <= start && start + len <= |s|
    ensures |r| == |s|
  {
    s[..start] + Masked(s[start..start + len], s[start - 4..start]) + s[start + len..]
  }

  /** getPayloadLength */
  method GetPayloadLength(frame: array<bv8>, n: nat, frameType0: FrameType) returns (len: nat, extra: nat, frameType: FrameType)
    requires 2 <= n <= frame.Length && frameType0.Frame?
    ensures (len, extra, frameType) == PayloadLength(frame[..n], frameType0.opcode)
  {
    frameType, extra := frameType0, 0;
    var b := frame[1] & 0x7F;
    if (b == 0x7E && n < 4) || (b == 0x7F && n < 10) {
      return 0, 0, Incomplete;
    }
    if b == 0x7F && frame[3] & 0x80 != 0 {
      return 0, 0, Error;
    }
    len := b as int;
    if b == 0x7E {
      extra := 2;
      len := Net16(frame[2], frame[3]);
    } else if b == 0x7F {
      return 0, 0, Error;
    }
  }

  /** Unmasking inside a buffer, seen on its first n bytes. */
  lemma FrameSlices(was: seq<bv8>, now: seq<bv8>, n: nat, start: nat, len: nat)
    requires 6 <= start && start + len <= n <= |was| == |now|
    requires now[..start] == was[..start]
    requires now[start..start + len] == Masked(was[start..start + len], was[start - 4..start])
    requires now[start + len..] == was[start + len..]
    ensures now[n..] == was[n..]
    ensures now[..n] == UnmaskedAt(was[..n], start, len)
  {
    hide Masked;
    var s := was[..n];
    assert s[start..start + len] == was[start..start + len];
    assert s[start - 4..start] == was[start - 4..start];
    assert now[n..] == now[start + len..][n - start - len..];
    assert now[start + len..n] == now[start + len..][..n - start - len];
    assert s[start + len..] == was[start + len..][..n - start - len];
    assert s[..start] == now[..start];
    assert now[..n] == now[..start] + now[start..start + len] + now[start + len..n];
  }

  /** wsParseInputFrame on the first n bytes of the buffer. */
  method ParseInputFrame(frame: array<bv8>, n: nat) returns (r: Parsed)
    requires 0 < n <= frame.Length
    modifies frame
    ensures r == ParseFrame(old(frame[..n]))
    ensures frame[..n] == Unmasked(old(frame[..n]), r) && frame[n..] == old(frame[n..])
  {
    hide PayloadLength, UnmaskedAt;
    if n < 2 {
      return Parsed(Incomplete, 0, 0);
    }
    if frame[0] & 0x70 != 0 {
      return Parsed(Error, 0, 0);
    }
    if frame[0] & 0x80 != 0x80 {
      return Parsed(Error, 0, 0);
    }
    if frame[1] & 0x80 != 0x80 {
      return Parsed(Error, 0, 0);
    }
    var opcode := frame[0] & 0x0F;
    if KnownOpcode(opcode) {
      var payloadLength, extra, frameType := GetPayloadLength(frame, n, Frame(opcode));
      if payloadLength > 0 {
        if payloadLength + 6 + extra > n {
          return Parsed(Incomplete, 0, 0);
        }
        UnmaskInPlace(frame, n, 2 + extra, payloadLength);
        return Parsed(frameType, 2 + extra + 4, payloadLength);
      }
      return Parsed(frameType, 0, 0);
    }
    return Parsed(Error, 0, 0);
  }

  /** The XOR loop: key at `key`, payload right behind it. */
  method UnmaskInPlace(frame: array<bv8>, n: nat, key: nat, len: nat)
    requires 2 <= key && key + 4 + len <= n <= frame.Length
    modifies frame
    ensures frame[..n] == UnmaskedAt(old(frame[..n]), key + 4, len) && frame[n..] == old(frame[n..])
  {
    ghost var was := frame[..];
    var data := key + 4;
    for i := 0 to len
      invariant forall j :: 0 <= j < data || data + i <= j < frame.Length ==> frame[j] == was[j]
      invariant forall j :: data <= j < data + i ==> frame[j] == was[j] ^ was[key + (j - data) % 4]
    {
      frame[data + i] := frame[data + i] ^ frame[key + i % 4];
    }
    ghost var now := frame[..];
    MaskedSlice(was, now, data, len);
    hide UnmaskedAt, Masked;
    assert now[..data] == was[..data];
    assert now[data + len..] == was[data + len..];
    FrameSlices(was, now, n, data, len);
    assert frame[..n] == now[..n] && frame[n..] == now[n..];
  }

  lemma MaskedSlice(was: seq<bv8>, now: seq<bv8>, data: nat, len: nat)
    requires 4 <= data && data + len <= |was| == |now|
    requires forall j :: data <= j < data + len ==> now[j] == was[j] ^ was[data - 4 + (j - data) % 4]
    ensures now[data..data + len] == Masked(was[data..data + len], was[data - 4..data])
  {
    var masked := Masked(was[data..data + len], was[data - 4..data]);
    forall i | 0 <= i < len
      ensures now[data..data + len][i] == masked[i]
    {
      assert now[data + i] == was[data + i] ^ was[data - 4 + i % 4];
      assert was[data - 4..data][i % 4] == was[data - 4 + i % 4];
    }
  }

  // ------------------------------------------------------------------------
  // Building and answering.

  method PutHeader(n: nat, outFrame: array<bv8>, op: bv8) returns (outLength: nat)
    requires n <= 0xFFFF && HeaderSize(n) - 4 <= outFrame.Length
    modifies outFrame
    ensures outLength == HeaderSize(n) - 4 && outFrame[..outLength] == ServerHeader(n, op)
  {
    hide Byte;
    outFrame[0] := 0x80 | op;
    if n <= 125 {
      NoMark(Byte(n));
      outFrame[1] := Byte(n);
      return 2;
    }
    NoMark(126);
    outFrame[1] := 126;
    outFrame[2], outFrame[3] := Byte(n / 256), Byte(n % 256);
    return 4;
  }

  /** memcpy of the payload behind the header. */
  method Memcpy(outFrame: array<bv8>, at: nat, data: seq<bv8>)
    requires at + |data| <= outFrame.Length
    modifies outFrame
    ensures outFrame[..at + |data|] == old(outFrame[..at]) + data
  {
    forall i | 0 <= i < |data| { outFrame[at + i] := data[i]; }
  }

  /** wsMakeFrame */
  method MakeFrame(data: seq<bv8>, outFrame: array<bv8>, op: bv8) returns (outLength: nat)
    requires |data| <= 0xFFFF && op < 0x10
    requires |ServerFrame(op, data)| <= outFrame.Length
    modifies outFrame
    ensures outLength == |ServerFrame(op, data)|
    ensures outFrame[..outLength] == ServerFrame(op, data)
  {
    hide ServerHeader;
    outLength := PutHeader(|data|, outFrame, op);
    Memcpy(outFrame, outLength, data);
    outLength := outLength + |data|;
  }

  /** What the handler does with a frame. */
  datatype Action = AsHttp | SendAndClose(frame: seq<bv8>) | CloseOnly | Send(frame: seq<bv8>) | NotReached

  /** The frame in the handler's answer buffer, as it is written to the client. */
  method Framed(data: seq<bv8>, op: bv8) returns (frame: seq<bv8>)
    requires |data| <= 0xFFFF && op < 0x10 && |ServerFrame(op, data)| <= BUF_LEN
    ensures frame == ServerFrame(op, data)
  {
    hide ServerFrame;
    var odata := new bv8[BUF_LEN](_ => 0);
    var frameSize := MakeFrame(data, odata, op);
    frame := odata[..frameSize];
  }

  /** WebSocketServerHandler::processReceived */
  method ProcessReceived(request: array<bv8>, reqLen: nat) returns (a: Action)
    requires 0 < reqLen <= request.Length && reqLen <= BUF_LEN
    modifies request
    ensures a == Answer(old(request[..reqLen]))
  {
    ghost var s := request[..reqLen];
    var p := ParseInputFrame(request, reqLen);
    AnswerFits(s);
    hide ParseFrame, ServerFrame, UnmaskedAt, KnownOpcode, Payload;
    if p.kind == Error {
      return AsHttp;
    } else if p.kind == Incomplete && reqLen == BUF_LEN {
      var frame := Framed([], CLOSING);
      return SendAndClose(frame);
    } else if p.kind == Frame(CLOSING) {
      return CloseOnly;
    } else if p.kind == Frame(TEXT) || p.kind == Frame(BINARY) {
      var data := if p.len == 0 then [] else request[p.start..p.start + p.len];
      assert p.len > 0 ==> data == request[..reqLen][p.start..p.start + p.len];
      PayloadIs(s, p);
      var frame := Framed(data, p.kind.opcode);
      return Send(frame);
    } else {
      return NotReached;
    }
  }

  /** The payload that parsing uncovers. */
  function Payload(s: seq<bv8>): (r: seq<bv8>)
    ensures |r| == ParseFrame(s).len
  {
    var p := ParseFrame(s);
    if p.len == 0 then [] else Unmasked(s, p)[p.start..p.start + p.len]
  }

  lemma PayloadIs(s: seq<bv8>, p: Parsed)
    requires p == ParseFrame(s)
    ensures Payload(s) == if p.len == 0 then [] else Unmasked(s, p)[p.start..p.start + p.len]
  {
    hide ParseFrame, Unmasked;
  }

  function Answer(s: seq<bv8>): Action
    requires |s| <= BUF_LEN
  {
    var p := ParseFrame(s);
    match p.kind
    case Error => AsHttp
    case Incomplete => if |s| == BUF_LEN then SendAndClose(ServerFrame(CLOSING, [])) else NotReached
    case Frame(op) =>
      if op == CLOSING then CloseOnly
      else if op == TEXT || op == BINARY then Send(ServerFrame(op, Payload(s)))
      else NotReached
  }

  // ------------------------------------------------------------------------
  // What each input is answered with, from its bytes.

  /** Reserved bits, FIN, mask bit and opcode of the first two bytes. */
  predicate BadHeader(s: seq<bv8>)
    requires |s| >= 2
  {
    var opcode := s[0] & 0x0F;
    || s[0] & 0x70 != 0
    || s[0] & 0x80 == 0
    || s[1] & 0x80 == 0
    || (opcode != 1 && opcode != 2 && opcode != 8 && opcode != 9 && opcode != 10)
  }

  /** A frame is in error exactly when its first byte has a reserved bit, FIN or mask bit
      are missing, the opcode is unknown, or the 64-bit length form is there in full. */
  lemma ErrorFrames(s: seq<bv8>)
    ensures ParseFrame(s).kind == Error <==> |s| >= 2 && (BadHeader(s) || (s[1] & 0x7F == 127 && |s| >= 10))
  {
    if |s| >= 2 {
      FinBit(s[0]);
      FinBit(s[1]);
    }
  }

  lemma FinBit(b: bv8)
    ensures b & 0x80 == 0x80 <==> b & 0x80 != 0
  {}

  /** A frame is incomplete exactly when there are fewer than two bytes, or a good header
      whose length field, key or payload is not all there; one without payload never is. */
  lemma IncompleteFrames(s: seq<bv8>)
    ensures ParseFrame(s).kind == Incomplete <==>
              || |s| < 2
              || (!BadHeader(s) &&
                  var code := s[1] & 0x7F;
                  if code == 127 then |s| < 10
                  else if code == 126 then |s| < 4 || (Net16(s[2], s[3]) > 0 && |s| < 8 + Net16(s[2], s[3]))
                  else 0 < code as int && |s| < 6 + code as int)
  {
    if |s| >= 2 {
      FinBit(s[0]);
      FinBit(s[1]);
      hide Net16;
    }
  }

  /** Any other input is a frame of its opcode. */
  lemma OtherFrames(s: seq<bv8>)
    ensures ParseFrame(s).kind.Frame? ==> |s| >= 2 && ParseFrame(s).kind == Frame(s[0] & 0x0F)
  {}

  lemma LowByte(b: bv8)
    requires b < 0x80
    ensures b & 0x80 == 0
  {}

  /** Every request of text, whose first byte is an ASCII letter, goes on to the HTTP
      handler: so does any input of two bytes or more that begins below 0x80. */
  lemma TextIsHttp(s: seq<bv8>)
    requires 2 <= |s| <= BUF_LEN && s[0] < 0x80
    ensures Answer(s) == AsHttp
  {
    LowByte(s[0]);
    ErrorFrames(s);
    hide ParseFrame;
  }

  /** What the handler does with every input, by its bytes. */
  lemma Answers(s: seq<bv8>)
    requires |s| <= BUF_LEN
    ensures Answer(s) == AsHttp <==> |s| >= 2 && (BadHeader(s) || (s[1] & 0x7F == 127 && |s| >= 10))
    ensures Answer(s).SendAndClose? <==> |s| == BUF_LEN && ParseFrame(s).kind == Incomplete
    ensures Answer(s).SendAndClose? ==> Answer(s).frame == [0x88, 0x00]
    ensures Answer(s) == CloseOnly <==> ParseFrame(s).kind.Frame? && s[0] & 0x0F == 8
    ensures Answer(s).Send? <==> ParseFrame(s).kind.Frame? && (s[0] & 0x0F == 1 || s[0] & 0x0F == 2)
    ensures Answer(s) == NotReached <==>
              || (ParseFrame(s).kind.Frame? && (s[0] & 0x0F == 9 || s[0] & 0x0F == 10))
              || (ParseFrame(s).kind == Incomplete && |s| < BUF_LEN)
  {
    ErrorFrames(s);
    OtherFrames(s);
    CloseBytes();
    FrameOpcode(s);
    hide ParseFrame, ServerFrame, Payload;
  }

  lemma FrameOpcode(s: seq<bv8>)
    ensures ParseFrame(s).kind.Frame? ==> |s| >= 2 && !BadHeader(s)
  {
    if |s| >= 2 {
      FinBit(s[0]);
      FinBit(s[1]);
    }
  }

  lemma CloseBytes()
    ensures ServerFrame(CLOSING, []) == [0x88, 0x00]
  {
    NoMark(Byte(0));
    assert Byte(0) == 0;
    assert 0x80 | CLOSING == 0x88;
  }

  /** The frames byte by byte: FIN and opcode, a 7-bit length or 126 and two length bytes
      in network order, the key, and payload byte i under key byte i modulo 4. */
  lemma FrameBytes(op: bv8, key: seq<bv8>, payload: seq<bv8>)
    requires |key| == 4 && |payload| <= 0xFFFF
    ensures var s, n := ServerFrame(op, payload), |payload|;
            && s[0] == 0x80 | op
            && (if n <= 125 then s[1] as int == n && s[2..] == payload
                else s[1] == 126 && s[2] as int * 256 + s[3] as int == n && s[4..] == payload)
    ensures var s, n := ClientFrame(op, key, payload), |payload|;
            var k := if n <= 125 then 2 else 4;
            && |s| == k + 4 + n && s[0] == 0x80 | op && s[1] & 0x80 == 0x80
            && (if n <= 125 then (s[1] & 0x7F) as int == n
                else s[1] & 0x7F == 126 && s[2] as int * 256 + s[3] as int == n)
            && s[k..k + 4] == key && (forall i :: 0 <= i < n ==> s[k + 4..][i] == payload[i] ^ key[i % 4])
  {
    ServerFrameLayout(op, payload);
    ClientFrameLayout(op, key, payload);
    hide ServerFrame, ClientFrame, Byte;
    if |payload| <= 125 {
      ShortLength(|payload|);
    } else {
      LongLength(|payload|);
      NoMark(126);
    }
  }

  /** A masked final close frame closes the connection, with or without a payload. */
  lemma CloseFrame(key: seq<bv8>, payload: seq<bv8>)
    requires |key| == 4 && |payload| <= 0xFFFF && |ClientFrame(8, key, payload)| <= BUF_LEN
    ensures Answer(ClientFrame(8, key, payload)) == CloseOnly
  {
    var s := ClientFrame(8, key, payload);
    if payload == [] {
      EmptyFrameEarly(8, key, 6);
      ClientFrameLayout(8, key, []);
      assert s[..6] == s;
    } else {
      ClientFrameParses(8, key, payload);
    }
    hide ParseFrame, ClientFrame;
  }

  /** A frame fits the answer buffer exactly up to 65531 payload bytes, and no request
      of at most BUF_LEN bytes carries that many; the read buffer is smaller still. */
  lemma ServerFrameFits(op: bv8, payload: seq<bv8>)
    requires |payload| <= 0xFFFF
    ensures |ServerFrame(op, payload)| <= BUF_LEN <==> |payload| <= 65531
  {}

  lemma AnswerFits(s: seq<bv8>)
    requires |s| <= BUF_LEN
    ensures |Payload(s)| <= 65529
    ensures forall op :: |ServerFrame(op, Payload(s))| <= BUF_LEN
  {}

  // ------------------------------------------------------------------------
  // Round trips.

  lemma MaskTwice(payload: seq<bv8>, key: seq<bv8>)
    requires |key| == 4
    ensures Masked(Masked(payload, key), key) == payload
  {
    forall i | 0 <= i < |payload|
      ensures Masked(Masked(payload, key), key)[i] == payload[i]
    {
      XorTwice(payload[i], key[i % 4]);
    }
  }

  lemma ClientFrameLayout(op: bv8, key: seq<bv8>, payload: seq<bv8>)
    requires |key| == 4 && |payload| <= 0xFFFF
    ensures var s, h := ClientFrame(op, key, payload), HeaderSize(|payload|);
            && |s| == h + |payload| && s[0] == 0x80 | op
            && s[h - 4..h] == key && s[h..] == Masked(payload, key)
            && (if |payload| <= 125 then s[1] == 0x80 | Byte(|payload|)
                else s[1] == 0x80 | 126 && s[2] == Byte(|payload| / 256) && s[3] == Byte(|payload| % 256))
  {}

  lemma ShortLength(n: nat)
    requires n <= 125
    ensures Byte(n) as int == n && Byte(n) != 0x7E && Byte(n) != 0x7F && 0 | Byte(n) == Byte(n)
    ensures Byte(n) & 0x7F == Byte(n) && Byte(n) & 0x80 == 0
    ensures (0x80 | Byte(n)) & 0x7F == Byte(n) && (0x80 | Byte(n)) & 0x80 == 0x80
  {
    SmallByte(Byte(n));
  }

  lemma LongLength(n: nat)
    requires n <= 0xFFFF
    ensures (0x80 | (126 as bv8)) & 0x7F == 0x7E && (0x80 | (126 as bv8)) & 0x80 == 0x80 && (126 as bv8) & 0x80 == 0 && 0 | (126 as bv8) == 126
    ensures Net16(Byte(n / 256), Byte(n % 256)) == n
  {}

  lemma PayloadLengthOf(s: seq<bv8>, op: bv8, n: nat)
    requires |s| >= 2 && n <= 0xFFFF
    requires n <= 125 ==> s[1] == 0x80 | Byte(n)
    requires n > 125 ==> s[1] == 0x80 | 126
    requires n > 125 && |s| >= 4 ==> s[2] == Byte(n / 256) && s[3] == Byte(n % 256)
    ensures s[1] & 0x80 == 0x80
    ensures PayloadLength(s, op) ==
      if n <= 125 then (n, 0, Frame(op)) else if |s| < 4 then (0, 0, Incomplete) else (n, 2, Frame(op))
  {
    hide Byte, Net16;
    if n <= 125 {
      ShortLength(n);
    } else {
      LongLength(n);
    }
  }

  /** Parsing any non-empty piece of the frame's header and body that is long enough to
      show its first two bytes. */
  lemma ParseFrameOf(s: seq<bv8>, op: bv8, n: nat)
    requires |s| >= 2 && 1 <= n <= 0xFFFF && KnownOpcode(op)
    requires s[0] == 0x80 | op
    requires n <= 125 ==> s[1] == 0x80 | Byte(n)
    requires n > 125 ==> s[1] == 0x80 | 126
    requires n > 125 && |s| >= 4 ==> s[2] == Byte(n / 256) && s[3] == Byte(n % 256)
    ensures ParseFrame(s) ==
      if |s| < HeaderSize(n) + n then Parsed(Incomplete, 0, 0) else Parsed(Frame(op), HeaderSize(n), n)
  {
    PayloadLengthOf(s, op, n);
    OpcodeByte(op);
    hide PayloadLength, Byte;
  }

  lemma UnmasksPayload(s: seq<bv8>, key: seq<bv8>, payload: seq<bv8>, h: nat)
    requires |key| == 4 <= h && |s| == h + |payload|
    requires s[h - 4..h] == key && s[h..] == Masked(payload, key)
    ensures UnmaskedAt(s, h, |payload|) == s[..h] + payload
  {
    MaskTwice(payload, key);
    hide Masked;
    assert s[h..h + |payload|] == s[h..];
    assert s[h + |payload|..] == [];
  }

  lemma ClientFrameParses(op: bv8, key: seq<bv8>, payload: seq<bv8>)
    requires KnownOpcode(op) && |key| == 4 && 1 <= |payload| <= 0xFFFF
    ensures ParseFrame(ClientFrame(op, key, payload)) == Parsed(Frame(op), HeaderSize(|payload|), |payload|)
  {
    ClientFrameLayout(op, key, payload);
    hide ClientFrame, ParseFrame, Byte, Masked;
    ParseFrameOf(ClientFrame(op, key, payload), op, |payload|);
  }

  lemma ClientFrameBody(op: bv8, key: seq<bv8>, payload: seq<bv8>)
    requires |key| == 4 && |payload| <= 0xFFFF
    ensures var s, h := ClientFrame(op, key, payload), HeaderSize(|payload|);
            |s| == h + |payload| && s[h - 4..h] == key && s[h..] == Masked(payload, key)
  {
    hide Byte, Masked;
    ClientFrameLayout(op, key, payload);
  }

  /** A frame of RFC 6455 with a payload of 1 to 65535 bytes parses to its opcode and its
      payload; only the payload bytes of the buffer change. */
  lemma ParsesClientFrame(op: bv8, key: seq<bv8>, payload: seq<bv8>)
    requires KnownOpcode(op) && |key| == 4 && 1 <= |payload| <= 0xFFFF
    ensures var s, h := ClientFrame(op, key, payload), HeaderSize(|payload|);
            && ParseFrame(s) == Parsed(Frame(op), h, |payload|)
            && Unmasked(s, ParseFrame(s)) == s[..h] + payload
            && Payload(s) == payload
  {
    var s, h, n := ClientFrame(op, key, payload), HeaderSize(|payload|), |payload|;
    ClientFrameParses(op, key, payload);
    ClientFrameBody(op, key, payload);
    hide ClientFrame, Masked, ParseFrame, UnmaskedAt, KnownOpcode;
    UnmasksPayload(s, key, payload, h);
    assert (s[..h] + payload)[h..h + n] == payload;
  }

  /** Every non-empty proper prefix is reported incomplete and left untouched. */
  lemma PrefixIncomplete(op: bv8, key: seq<bv8>, payload: seq<bv8>, m: nat)
    requires KnownOpcode(op) && |key| == 4 && 1 <= |payload| <= 0xFFFF
    requires 0 < m < |ClientFrame(op, key, payload)|
    ensures var s := ClientFrame(op, key, payload)[..m];
            ParseFrame(s) == Parsed(Incomplete, 0, 0) && Unmasked(s, ParseFrame(s)) == s
  {
    var s := ClientFrame(op, key, payload)[..m];
    ClientFrameLayout(op, key, payload);
    if m >= 2 {
      hide ClientFrame, Masked, ParseFrame, Byte;
      ParseFrameOf(s, op, |payload|);
    }
  }

  /** Without payload the parser does not wait for the key: any prefix of two bytes or
      more already counts as the whole frame. */
  lemma EmptyFrameEarly(op: bv8, key: seq<bv8>, m: nat)
    requires KnownOpcode(op) && |key| == 4 && 2 <= m <= 6
    ensures ParseFrame(ClientFrame(op, key, [])[..m]) == Parsed(Frame(op), 0, 0)
  {
    var s := ClientFrame(op, key, [])[..m];
    ClientFrameLayout(op, key, []);
    OpcodeByte(op);
    hide ClientFrame, PayloadLength, Byte, Masked;
    PayloadLengthOf(s, op, 0);
  }

  lemma ServerFrameLayout(op: bv8, payload: seq<bv8>)
    requires |payload| <= 0xFFFF
    ensures var s := ServerFrame(op, payload);
            && |s| == HeaderSize(|payload|) - 4 + |payload| && s[0] == 0x80 | op
            && s[HeaderSize(|payload|) - 4..] == payload
            && (if |payload| <= 125 then s[1] == 0 | Byte(|payload|)
                else s[1] == 0 | 126 && s[2] == Byte(|payload| / 256) && s[3] == Byte(|payload| % 256))
  {
    hide Byte;
  }

  /** The server's frame decodes to what it was made from. */
  lemma ServerRoundTrip(op: bv8, payload: seq<bv8>)
    requires op < 0x10 && |payload| <= 0xFFFF
    ensures DecodeServerFrame(ServerFrame(op, payload)) == Some((op, payload))
  {
    ServerFrameLayout(op, payload);
    OpcodeByte(op);
    hide ServerFrame, Byte, Net16;
    if |payload| <= 125 {
      ShortLength(|payload|);
    } else {
      LongLength(|payload|);
    }
  }

  /** Echo: a text or binary frame comes back, unmasked, with the same opcode and payload,
      for every frame of at most BUF_LEN bytes. */
  lemma Echo(op: bv8, key: seq<bv8>, payload: seq<bv8>)
    requires (op == TEXT || op == BINARY) && |key| == 4 && 1 <= |payload| <= 0xFFFF
    requires |ClientFrame(op, key, payload)| <= BUF_LEN
    ensures Answer(ClientFrame(op, key, payload)).Send?
    ensures DecodeServerFrame(Answer(ClientFrame(op, key, payload)).frame) == Some((op, payload))
  {
    ParsesClientFrame(op, key, payload);
    ServerRoundTrip(op, payload);
  }
}
