/**
  internal/protocol/analyzer.go: the probes of one candidate server (Server
  List Ping status, Login Start for whitelist inference, the RCON port) and how
  their answers are folded into a `ServerDetail`.

  A TCP connection is a `Peer`: whether dialling it succeeds, whether writes to
  it succeed, and the bytes the server sends. A probe returns the bytes that
  reached the server. A read consumes the front of the reply; the unread rest
  is carried along as a value.
*/
module Analyzer {
  import opened Wrappers
  import opened Bytes
  import opened Types

  const STATUS_PROTOCOL: int := 763
  const STATUS_STATE: nat := 1
  const LOGIN_STATE: nat := 2
  const RCON_PORT: int := 25575

  /** From this protocol on, Login Start ends with the player's UUID. */
  const UUID_PROTOCOL: int := 764
  /** From this protocol up to `UUID_PROTOCOL`, Login Start ends with a has-UUID flag and the UUID. */
  const FLAGGED_UUID_PROTOCOL: int := 759

  const USERNAME: Str := OfString("GeminiCrawler")
  const UUID: Str := [0xDE, 0xAD, 0xBE, 0xEF, 0xDE, 0xAD, 0xBE, 0xEF, 0xDE, 0xAD, 0xBE, 0xEF, 0xDE, 0xAD, 0xBE, 0xEF]
  const FAVICON_PREFIX: Str := OfString("data:image/png;base64,")
  const RCON_SOFTWARE: Str := OfString("RCON Service")

  /** One TCP connection to the candidate. */
  datatype Peer = Peer(reachable: bool, acceptsWrites: bool, reply: Str)

  /** What `conn.Write(b)` delivers: all of `b`, or nothing when the write fails. */
  function Delivered(peer: Peer, b: Str): Str {
    if peer.acceptsWrites then b else []
  }

  datatype ProbeError = DialFailed | WriteFailed | ReadFailed(cause: ReadError) | WrongPacketId | ShortRead | BadJson

  datatype ForgeMod = ForgeMod(modId: Str, version: Str)

  /** The fields of the status JSON the crawler uses. */
  datatype StatusResponse = StatusResponse(
    versionName: Str,
    protocol: int,
    playersMax: int,
    playersOnline: int,
    favicon: Str,
    enforcesSecureChat: bool,
    mods: seq<ForgeMod>)

  /** The part of the UDP query result `AnalyzeServer` uses. */
  datatype QueryInfo = QueryInfo(software: Str, plugins: seq<Str>)

  // ---------------------------------------------------------------------------
  // Handshake

  /** The Handshake packet: id 0, protocol version, server address, port, next state. */
  function HandshakePacket(host: Str, port: int, protocol: int, nextState: nat): Str {
    Encode(0) + EncodeInt64(protocol) + Encode(|host|) + host + BE16(port) + Encode(nextState)
  }

  /** A packet on the wire: its length as a VarInt, then the packet. */
  function Frame(p: Str): Str {
    Encode(|p|) + p
  }

  /** Frames a packet in a fresh buffer: its length, then the packet. */
  method WriteFrame(packet: Str) returns (frame: Str)
    ensures frame == Frame(packet)
  {
    var f := new Writer.Buffer();
    AppendVarInt(f, |packet|);
    var err := f.Write(packet);
    frame := f.written;
  }

  /** Builds the Handshake packet in a buffer. The protocol is written through the uint64 conversion (see `Types.EncodeInt64`). */
  method BuildHandshake(host: Str, port: int, protocol: int, nextState: nat) returns (packet: Str)
    ensures packet == HandshakePacket(host, port, protocol, nextState)
  {
    var buf := new Writer.Buffer();
    AppendVarInt(buf, 0);
    assert buf.written == Encode(0);
    AppendVarInt64(buf, protocol);
    AppendVarInt(buf, |host|);
    var e3 := buf.Write(host);
    var e4 := buf.Write(BE16(port));
    AppendVarInt(buf, nextState);
    packet := buf.written;
  }

  /** `sendHandshake`: builds the packet and its frame in memory, then writes the frame in one call. */
  method SendHandshake(peer: Peer, host: Str, port: int, protocol: int, nextState: nat)
    returns (err: bool, sent: Str)
    ensures err == !peer.acceptsWrites
    ensures sent == Delivered(peer, Frame(HandshakePacket(host, port, protocol, nextState)))
  {
    var packet := BuildHandshake(host, port, protocol, nextState);
    var frame := WriteFrame(packet);
    err := !peer.acceptsWrites;
    sent := Delivered(peer, frame);
  }

  datatype Handshake = Handshake(protocol: int, host: Str, port: nat, nextState: int)

  /** How the server reads a framed Handshake off the front of a stream: the packet and the bytes after the frame. */
  function ReadHandshake(d: Str): Option<(Handshake, Str)> {
    match TakeVarInt(d)
    case Failure(_) => None
    case Success((len, afterLen)) =>
      if !(0 <= len <= |afterLen|) then None
      else
        match ReadHandshakeBody(afterLen[..len])
        case None => None
        case Some(h) => Some((h, afterLen[len..]))
  }

  /** The fields of a Handshake packet that must be consumed exactly. */
  function ReadHandshakeBody(p: Str): Option<Handshake> {
    match TakeVarInt(p)
    case Failure(_) => None
    case Success((id, p1)) =>
      if id != 0 then None
      else
        match TakeVarInt(p1)
        case Failure(_) => None
        case Success((protocol, p2)) =>
          match TakeVarInt(p2)
          case Failure(_) => None
          case Success((hostLen, p3)) =>
            if !(0 <= hostLen && hostLen + 2 <= |p3|) then None
            else
              match TakeVarInt(p3[hostLen + 2..])
              case Failure(_) => None
              case Success((nextState, p4)) =>
                if p4 != [] then None
                else Some(Handshake(protocol, p3[..hostLen], BigEndian(p3[hostLen..hostLen + 2]), nextState))
  }

  /**
    The server recovers every field of the handshake, the port modulo 2^16,
    and the frame ends exactly where the packet does.
  */
  lemma HandshakeRoundTrip(host: Str, port: int, protocol: int, nextState: nat, rest: Str)
    requires |host| < 0x1_0000 && nextState < TWO63
    requires -(TWO63 as int) <= protocol < TWO63
    ensures ReadHandshake(Frame(HandshakePacket(host, port, protocol, nextState)) + rest)
            == Some((Handshake(protocol, host, port % 0x1_0000, nextState), rest))
  {
    var p := HandshakePacket(host, port, protocol, nextState);
    assert |p| < TWO63 by {
      EncodeAtMostTen(protocol % TWO64);
      EncodeAtMostTen(|host|);
      EncodeAtMostTen(nextState);
    }
    assert TakeVarInt(Frame(p) + rest) == Success((|p|, p + rest)) by {
      assert Frame(p) + rest == Encode(|p|) + (p + rest);
      TakeEncoded(|p|, p + rest);
    }
    assert (p + rest)[..|p|] == p && (p + rest)[|p|..] == rest;
    HandshakeBodyRoundTrip(host, port, protocol, nextState);
  }

  /** The packet inside the frame is read back field by field, to its last byte. */
  lemma HandshakeBodyRoundTrip(host: Str, port: int, protocol: int, nextState: nat)
    requires |host| < 0x1_0000 && nextState < TWO63
    requires -(TWO63 as int) <= protocol < TWO63
    ensures ReadHandshakeBody(HandshakePacket(host, port, protocol, nextState))
            == Some(Handshake(protocol, host, port % 0x1_0000, nextState))
  {
    var ep, eh, bp, en := EncodeInt64(protocol), Encode(|host|), BE16(port), Encode(nextState);
    var p3 := host + bp + en;
    var p2 := eh + p3;
    var p1 := ep + p2;
    var p := HandshakePacket(host, port, protocol, nextState);
    assert p == Encode(0) + p1;
    assert TakeVarInt(p) == Success((0, p1)) by {
      TakeEncoded(0, p1);
    }
    assert TakeVarInt(p1) == Success((protocol, p2)) by {
      TakeEncodedInt64(protocol, p2);
    }
    assert TakeVarInt(p2) == Success((|host|, p3)) by {
      TakeEncoded(|host|, p3);
    }
    assert p3[..|host|] == host && p3[|host|..|host| + 2] == bp && p3[|host| + 2..] == en;
    assert TakeVarInt(en) == Success((nextState as int, [])) by {
      assert en + [] == en;
      TakeEncoded(nextState, []);
    }
    assert BigEndian(bp) == port % 0x1_0000;
  }

  // ---------------------------------------------------------------------------
  // Status

  /** The Status Request: packet id 0, framed. */
  function StatusRequest(): Str {
    Frame(Encode(0))
  }

  /** On the wire the Status Request is the two bytes `01 00`. */
  lemma StatusRequestBytes()
    ensures StatusRequest() == [0x01, 0x00]
  {
  }

  /**
    How `GetServerStatus` reads the reply: the packet length (any value), the
    packet id (a failed read counts as id 0), the JSON length with the bounded
    reader, then exactly that many bytes of JSON.
  */
  function StatusReply(reply: Str, decode: Str -> Option<StatusResponse>): Result<StatusResponse, ProbeError> {
    match TakeVarInt(reply)
    case Failure(e) => Failure(ReadFailed(e))
    case Success((_, afterLen)) =>
      var (id, afterId) := OrZero(TakeVarInt(afterLen));
      if id != 0 then Failure(WrongPacketId)
      else
        match TakeSafeVarInt(afterId)
        case Failure(e) => Failure(ReadFailed(e))
        case Success((n, afterN)) =>
          if n > |afterN| then Failure(ShortRead)
          else
            match decode(afterN[..n])
            case None => Failure(BadJson)
            case Some(s) => Success(s)
  }

  /** The outcome of the status probe of a connection. */
  function StatusOf(peer: Peer, decode: Str -> Option<StatusResponse>): Result<StatusResponse, ProbeError> {
    if peer.reachable then StatusReply(peer.reply, decode) else Failure(DialFailed)
  }

  /**
    `GetServerStatus`: a dial failure is an error; otherwise it sends the
    handshake (protocol 763, next state 1) and the Status Request, ignoring
    write errors, and reads the reply.
  */
  method GetServerStatus(host: Str, port: int, peer: Peer, decode: Str -> Option<StatusResponse>)
    returns (r: Result<StatusResponse, ProbeError>, sent: Str)
    ensures sent == if peer.reachable
                    then Delivered(peer, Frame(HandshakePacket(host, port, STATUS_PROTOCOL, STATUS_STATE)))
                         + Delivered(peer, StatusRequest())
                    else []
    ensures r == StatusOf(peer, decode)
  {
    if !peer.reachable {
      return Failure(DialFailed), [];
    }
    var hsErr, hs := SendHandshake(peer, host, port, STATUS_PROTOCOL, STATUS_STATE);
    var sr := new Writer.Buffer();
    AppendVarInt(sr, 0);
    var f := WriteFrame(sr.written);
    sent := hs + Delivered(peer, f);

    var rest := peer.reply;
    var len := ReadVarInt(rest, 0);
    if len.Failure? {
      return Failure(ReadFailed(len.error)), sent;
    }
    rest := rest[len.value.next..];
    var id := ReadVarInt(rest, 0);
    var pid := 0;
    if id.Success? {
      pid := id.value.value;
      rest := rest[id.value.next..];
    } else {
      rest := [];
    }
    if pid != 0 {
      return Failure(WrongPacketId), sent;
    }
    var jLen := ReadVarIntSafe(rest, 0);
    if jLen.Failure? {
      return Failure(ReadFailed(jLen.error)), sent;
    }
    rest := rest[jLen.value.next..];
    var n := jLen.value.value;
    if n > |rest| {
      return Failure(ShortRead), sent;
    }
    var json := rest[..n];
    match decode(json)
    case None =>
      r := Failure(BadJson);
    case Some(s) =>
      r := Success(s);
  }

  /** A well-formed Status Response packet is decoded from exactly its JSON bytes. */
  lemma StatusOfResponsePacket(len: nat, json: Str, rest: Str, decode: Str -> Option<StatusResponse>)
    requires len < TWO63 && |json| < Pow2(42)
    ensures StatusReply(Encode(len) + Encode(0) + Encode(|json|) + json + rest, decode)
            == match decode(json) case None => Failure(BadJson) case Some(s) => Success(s)
  {
    var a2 := json + rest;
    var a1 := Encode(|json|) + a2;
    var a0 := Encode(0) + a1;
    assert Encode(len) + Encode(0) + Encode(|json|) + json + rest == Encode(len) + a0 by {
      Regroup(Encode(len) + Encode(0), Encode(|json|), json, rest);
      Regroup(Encode(len), Encode(0), a1, []);
    }
    assert TakeVarInt(Encode(len) + a0) == Success((len as int, a0)) by {
      TakeEncoded(len, a0);
    }
    assert TakeVarInt(a0) == Success((0, a1)) by {
      TakeEncoded(0, a1);
    }
    assert TakeSafeVarInt(a1) == Success((|json|, a2)) by {
      TakeSafeEncoded(|json|, a2);
    }
    assert a2[..|json|] == json;
  }

  /** A reply whose packet id is not 0 is rejected. */
  lemma StatusRejectsOtherPacket(len: nat, id: int, rest: Str, decode: Str -> Option<StatusResponse>)
    requires len < TWO63 && id != 0 && -(TWO63 as int) <= id < TWO63
    ensures StatusReply(Encode(len) + EncodeInt64(id) + rest, decode) == Failure(WrongPacketId)
  {
    var a0 := EncodeInt64(id) + rest;
    assert Encode(len) + EncodeInt64(id) + rest == Encode(len) + a0 by {
      Regroup(Encode(len), EncodeInt64(id), rest, []);
    }
    assert TakeVarInt(Encode(len) + a0) == Success((len, a0)) by {
      TakeEncoded(len, a0);
    }
    assert TakeVarInt(a0) == Success((id, rest)) by {
      TakeEncodedInt64(id, rest);
    }
  }

  /** Fewer JSON bytes than announced is an error. */
  lemma StatusRejectsShortJson(len: nat, n: nat, json: Str, decode: Str -> Option<StatusResponse>)
    requires len < TWO63 && |json| < n < Pow2(42)
    ensures StatusReply(Encode(len) + Encode(0) + Encode(n) + json, decode) == Failure(ShortRead)
  {
    var a1 := Encode(n) + json;
    var a0 := Encode(0) + a1;
    assert Encode(len) + Encode(0) + Encode(n) + json == Encode(len) + a0 by {
      Regroup(Encode(len), Encode(0), Encode(n), json);
    }
    assert TakeVarInt(Encode(len) + a0) == Success((len as int, a0)) by {
      TakeEncoded(len, a0);
    }
    assert TakeVarInt(a0) == Success((0, a1)) by {
      TakeEncoded(0, a1);
    }
    assert TakeSafeVarInt(a1) == Success((n as int, json)) by {
      TakeSafeEncoded(n, json);
    }
  }

  /** A JSON length of six continuation bytes is refused before any allocation. */
  lemma StatusRejectsLongLength(len: nat, tail: Str, decode: Str -> Option<StatusResponse>)
    requires len < TWO63
    ensures StatusReply(Encode(len) + Encode(0) + [0xFF, 0xFF, 0xFF, 0xFF, 0xFF, 0xFF] + tail, decode)
            == Failure(ReadFailed(TooLong))
  {
    var six: Str := [0xFF, 0xFF, 0xFF, 0xFF, 0xFF, 0xFF];
    var a1 := six + tail;
    var a0 := Encode(0) + a1;
    assert Encode(len) + Encode(0) + six + tail == Encode(len) + a0 by {
      Regroup(Encode(len), Encode(0), six, tail);
    }
    assert TakeVarInt(Encode(len) + a0) == Success((len as int, a0)) by {
      TakeEncoded(len, a0);
    }
    assert TakeVarInt(a0) == Success((0, a1)) by {
      TakeEncoded(0, a1);
    }
    assert TakeSafeVarInt(a1) == Failure(TooLong) by {
      SafeBound(a1, 0);
    }
  }

  // ---------------------------------------------------------------------------
  // Login Start and the whitelist inference

  /** The UUID field of Login Start for a protocol version. */
  function UuidField(protocol: int): Str {
    if protocol >= UUID_PROTOCOL then UUID
    else if protocol >= FLAGGED_UUID_PROTOCOL then [0x01] + UUID
    else []
  }

  /** The Login Start packet: id 0, the user name, then the UUID field. */
  function LoginStart(protocol: int): Str {
    Encode(0) + Encode(|USERNAME|) + USERNAME + UuidField(protocol)
  }

  /** Builds the Login Start packet in a buffer, as `AnalyzeServer` does. */
  method BuildLoginStart(protocol: int) returns (packet: Str)
    ensures packet == LoginStart(protocol)
  {
    var ls := new Writer.Buffer();
    AppendVarInt(ls, 0);
    AppendVarInt(ls, |USERNAME|);
    ghost var named := Encode(0) + Encode(|USERNAME|) + USERNAME;
    var e2 := ls.Write(USERNAME);
    assert ls.written == named && ls.room.None?;
    if protocol >= UUID_PROTOCOL {
      var e3 := ls.Write(UUID);
    } else if protocol >= FLAGGED_UUID_PROTOCOL {
      var e3 := ls.Write([0x01]);
      var e4 := ls.Write(UUID);
      assert ls.written == named + ([0x01] + UUID) by { Regroup(named, [0x01], UUID, []); }
    } else {
      assert ls.written == named + [];
    }
    packet := ls.written;
  }

  /**
    The layout of Login Start: id 0, the 13-byte name, then 16 UUID bytes from
    protocol 764, a `01` flag and the 16 bytes for 759 to 763, nothing before.
  */
  lemma LoginStartLayout(protocol: int)
    ensures TakeVarInt(LoginStart(protocol)) == Success((0, LoginStart(protocol)[1..]))
    ensures TakeVarInt(LoginStart(protocol)[1..]) == Success((13, LoginStart(protocol)[2..]))
    ensures LoginStart(protocol)[2..15] == USERNAME
    ensures protocol >= 764 ==> LoginStart(protocol)[15..] == UUID
    ensures 759 <= protocol < 764 ==> LoginStart(protocol)[15..] == [0x01] + UUID
    ensures protocol < 759 ==> |LoginStart(protocol)| == 15
  {
    var ls := LoginStart(protocol);
    var tail := USERNAME + UuidField(protocol);
    assert |USERNAME| == 13;
    assert ls == Encode(0) + (Encode(13) + tail) by {
      Regroup(Encode(0), Encode(13), USERNAME, UuidField(protocol));
    }
    assert Encode(0) == [0x00] && Encode(13) == [0x0D];
    assert ls[1..] == Encode(13) + tail;
    assert ls[2..] == tail;
    assert tail[..13] == USERNAME && tail[13..] == UuidField(protocol);
    assert TakeVarInt(ls) == Success((0, ls[1..])) by {
      TakeEncoded(0, Encode(13) + tail);
    }
    assert TakeVarInt(ls[1..]) == Success((13, tail)) by {
      TakeEncoded(13, tail);
    }
  }

  /** The whitelist test on a Disconnect reason, after `strings.ToLower`. */
  predicate Whitelisted(reason: Str) {
    var msg := ToLower(reason);
    Contains(msg, OfString("whitelist")) || Contains(msg, OfString("not on the list"))
  }

  function Zeros(n: nat): (r: Str)
    ensures |r| == n && forall i :: 0 <= i < n ==> r[i] == 0
  {
    seq(n, i => 0)
  }

  /**
    The Disconnect reason as the code sees it: a buffer of `n` bytes filled by
    `io.ReadFull` with its error discarded, so the bytes the stream still has,
    then zeros.
  */
  function ReasonBuffer(d: Str, n: nat): (r: Str)
    ensures |r| == n
  {
    if n <= |d| then d[..n] else d + Zeros(n - |d|)
  }

  datatype LoginOutcome = Answered(whitelisted: bool) | Panicked

  /**
    The login reply as `AnalyzeServer` reads it: the packet length (a failed
    read ends the login probe), the packet id and the reason length with their
    errors discarded, then `make([]byte, rLen)`, which panics for a negative
    length and for one above `MAX_ALLOC`.
  */
  function LoginReplyAsWritten(reply: Str): LoginOutcome {
    match TakeVarInt(reply)
    case Failure(_) => Answered(false)
    case Success((_, afterLen)) =>
      var (id, afterId) := OrZero(TakeVarInt(afterLen));
      if id != 0 then Answered(false)
      else
        var (n, afterN) := OrZero(TakeVarInt(afterId));
        if n < 0 || n > MAX_ALLOC then Panicked else Answered(Whitelisted(ReasonBuffer(afterN, n)))
  }

  /** The login reply read as intended: a negative reason length leaves the server not whitelisted. */
  function LoginReply(reply: Str): (w: bool)
    ensures LoginReplyAsWritten(reply).Answered? ==> w == LoginReplyAsWritten(reply).whitelisted
  {
    match TakeVarInt(reply)
    case Failure(_) => false
    case Success((_, afterLen)) =>
      var (id, afterId) := OrZero(TakeVarInt(afterLen));
      if id != 0 then false
      else
        var (n, afterN) := OrZero(TakeVarInt(afterId));
        n >= 0 && Whitelisted(ReasonBuffer(afterN, n))
  }

  /** Ten bytes that `ReadVarInt` reads as -1. */
  const MINUS_ONE: Str := [0xFF, 0xFF, 0xFF, 0xFF, 0xFF, 0xFF, 0xFF, 0xFF, 0xFF, 0x01]

  /** A Disconnect packet whose reason length reads as -1 makes the code as written panic. */
  lemma LoginReplyPanics()
    ensures LoginReplyAsWritten([0x0B, 0x00] + MINUS_ONE) == Panicked
    ensures !LoginReply([0x0B, 0x00] + MINUS_ONE)
  {
    var a0 := Encode(0) + MINUS_ONE;
    assert [0x0B, 0x00] + MINUS_ONE == Encode(11) + a0;
    assert TakeVarInt(Encode(11) + a0) == Success((11, a0)) by {
      TakeEncoded(11, a0);
    }
    assert TakeVarInt(a0) == Success((0, MINUS_ONE)) by {
      TakeEncoded(0, MINUS_ONE);
    }
    assert TakeVarInt(MINUS_ONE) == Success((-1, [])) by {
      ReadsMinusOne();
    }
  }

  /**
    A reason length above `MAX_ALLOC` makes the code as written panic too; the
    corrected reading looks at the bytes the stream holds.
  */
  lemma LoginReplyHugeLengthPanics(len: nat, n: nat, rest: Str)
    requires len < TWO63 && MAX_ALLOC < n < TWO63
    ensures LoginReplyAsWritten(Encode(len) + Encode(0) + Encode(n) + rest) == Panicked
    ensures LoginReply(Encode(len) + Encode(0) + Encode(n) + rest) == Whitelisted(ReasonBuffer(rest, n))
  {
    var a1 := Encode(n) + rest;
    var a0 := Encode(0) + a1;
    assert Encode(len) + Encode(0) + Encode(n) + rest == Encode(len) + a0 by {
      Regroup(Encode(len), Encode(0), Encode(n), rest);
    }
    assert TakeVarInt(Encode(len) + a0) == Success((len as int, a0)) by {
      TakeEncoded(len, a0);
    }
    assert TakeVarInt(a0) == Success((0, a1)) by {
      TakeEncoded(0, a1);
    }
    assert TakeVarInt(a1) == Success((n as int, rest)) by {
      TakeEncoded(n, rest);
    }
  }

  /** A Disconnect packet: the server is whitelisted exactly when its reason passes the whitelist test. */
  lemma LoginReplyOfDisconnect(len: nat, reason: Str, rest: Str)
    requires len < TWO63 && |reason| < TWO63
    ensures LoginReply(Encode(len) + Encode(0) + Encode(|reason|) + reason + rest) == Whitelisted(reason)
  {
    var a2 := reason + rest;
    var a1 := Encode(|reason|) + a2;
    var a0 := Encode(0) + a1;
    assert Encode(len) + Encode(0) + Encode(|reason|) + reason + rest == Encode(len) + a0 by {
      Regroup(Encode(len) + Encode(0), Encode(|reason|), reason, rest);
      Regroup(Encode(len), Encode(0), a1, []);
    }
    assert TakeVarInt(Encode(len) + a0) == Success((len as int, a0)) by {
      TakeEncoded(len, a0);
    }
    assert TakeVarInt(a0) == Success((0, a1)) by {
      TakeEncoded(0, a1);
    }
    assert TakeVarInt(a1) == Success((|reason|, a2)) by {
      TakeEncoded(|reason|, a2);
    }
    assert ReasonBuffer(a2, |reason|) == reason;
  }

  /** Any other login packet (encryption request, login success, ...) leaves the server not whitelisted. */
  lemma LoginReplyOfOtherPacket(len: nat, id: int, rest: Str)
    requires len < TWO63 && id != 0 && -(TWO63 as int) <= id < TWO63
    ensures !LoginReply(Encode(len) + EncodeInt64(id) + rest)
    ensures LoginReplyAsWritten(Encode(len) + EncodeInt64(id) + rest) == Answered(false)
  {
    var a0 := EncodeInt64(id) + rest;
    assert Encode(len) + EncodeInt64(id) + rest == Encode(len) + a0 by {
      Regroup(Encode(len), EncodeInt64(id), rest, []);
    }
    assert TakeVarInt(Encode(len) + a0) == Success((len as int, a0)) by {
      TakeEncoded(len, a0);
    }
    assert TakeVarInt(a0) == Success((id, rest)) by {
      TakeEncodedInt64(id, rest);
    }
  }

  /** Text that lower-casing leaves as it is: no ASCII capital, no `C4 B0`, no `E2 84 AA`. */
  predicate Lowered(t: Str)
    decreases |t|
  {
    t == [] ||
    (LowerByte(t[0]) == t[0] &&
     !(|t| >= 2 && t[0] == 0xC4 && t[1] == 0xB0) &&
     !(|t| >= 3 && t[0] == 0xE2 && t[1] == 0x84 && t[2] == 0xAA) &&
     Lowered(t[1..]))
  }

  lemma {:induction false} LoweredFixed(t: Str)
    requires Lowered(t)
    ensures ToLower(t) == t
    decreases |t|
  {
    if t != [] {
      LoweredFixed(t[1..]);
      assert t == [t[0]] + t[1..];
    }
  }

  /** A lower-cased text starting with a byte that continues `C4 B0` or `E2 84 AA` got it from the same byte. */
  lemma LowerHead(u: Str)
    requires u != []
    ensures ToLower(u) != []
    ensures ToLower(u)[0] == 0xB0 || ToLower(u)[0] == 0x84 || ToLower(u)[0] == 0xAA ==>
              u[0] == ToLower(u)[0] && ToLower(u) == [u[0]] + ToLower(u[1..])
  {
  }

  lemma {:induction false} LowerIsLowered(s: Str)
    ensures Lowered(ToLower(s))
    decreases |s|
  {
    if s != [] {
      var r := ToLower(s);
      if |s| >= 2 && s[0] == 0xC4 && s[1] == 0xB0 {
        LowerIsLowered(s[2..]);
        assert r[1..] == ToLower(s[2..]);
      } else if |s| >= 3 && s[0] == 0xE2 && s[1] == 0x84 && s[2] == 0xAA {
        LowerIsLowered(s[3..]);
        assert r[1..] == ToLower(s[3..]);
      } else {
        var rest := ToLower(s[1..]);
        LowerIsLowered(s[1..]);
        assert r == [LowerByte(s[0])] + rest && r[1..] == rest;
        if |s| >= 2 {
          LowerHead(s[1..]);
          if |s| >= 3 && s[1] == 0x84 {
            LowerHead(s[2..]);
          }
        }
      }
    }
  }

  lemma ToLowerIdempotent(s: Str)
    ensures ToLower(ToLower(s)) == ToLower(s)
  {
    LowerIsLowered(s);
    LoweredFixed(ToLower(s));
  }

  /** `ToLower` lowers an ASCII prefix byte by byte, whatever follows it. */
  lemma {:induction false} LowerAsciiPrefix(a: Str, rest: Str)
    requires forall i :: 0 <= i < |a| ==> a[i] < 0x80
    ensures ToLower(a + rest) == seq(|a|, i requires 0 <= i < |a| => LowerByte(a[i])) + ToLower(rest)
    decreases |a|
  {
    if a == [] {
      assert a + rest == rest;
    } else {
      assert (a + rest)[1..] == a[1..] + rest;
      LowerAsciiPrefix(a[1..], rest);
    }
  }

  /** The bytes of the first text the whitelist test looks for. */
  lemma WhitelistBytes()
    ensures OfString("whitelist") == [0x77, 0x68, 0x69, 0x74, 0x65, 0x6C, 0x69, 0x73, 0x74]
  {
  }

  /** "İTELIST" followed by anything is lowered to "itelist" followed by the rest lowered. */
  lemma LowerDottedTail(rest: Str)
    ensures ToLower([0xC4, 0xB0, 0x54, 0x45, 0x4C, 0x49, 0x53, 0x54] + rest)
            == [0x69, 0x74, 0x65, 0x6C, 0x69, 0x73, 0x74] + ToLower(rest)
  {
    var t: Str := [0x54, 0x45, 0x4C, 0x49, 0x53, 0x54];
    var u := [0xC4, 0xB0] + (t + rest);
    assert u == [0xC4, 0xB0, 0x54, 0x45, 0x4C, 0x49, 0x53, 0x54] + rest;
    assert u[2..] == t + rest;
    assert ToLower(u) == [0x69] + ToLower(t + rest);
    LowerAsciiPrefix(t, rest);
    assert seq(|t|, i requires 0 <= i < |t| => LowerByte(t[i])) == [0x74, 0x65, 0x6C, 0x69, 0x73, 0x74];
  }

  /** "WHİTELIST" followed by anything is lowered to "whitelist" followed by the rest lowered. */
  lemma LowerDottedWhitelist(rest: Str)
    ensures ToLower([0x57, 0x48, 0xC4, 0xB0, 0x54, 0x45, 0x4C, 0x49, 0x53, 0x54] + rest)
            == [0x77, 0x68, 0x69, 0x74, 0x65, 0x6C, 0x69, 0x73, 0x74] + ToLower(rest)
  {
    var u: Str := [0xC4, 0xB0, 0x54, 0x45, 0x4C, 0x49, 0x53, 0x54] + rest;
    assert [0x57, 0x48, 0xC4, 0xB0, 0x54, 0x45, 0x4C, 0x49, 0x53, 0x54] + rest == [0x57, 0x48] + u;
    LowerAsciiPrefix([0x57, 0x48], u);
    LowerDottedTail(rest);
  }

  /**
    A reason that starts with "WHİTELIST", its I written as U+0130, is lowered
    to one starting with "whitelist" and passes the test.
  */
  lemma DottedCapitalIWhitelisted(rest: Str)
    ensures Whitelisted([0x57, 0x48, 0xC4, 0xB0, 0x54, 0x45, 0x4C, 0x49, 0x53, 0x54] + rest)
  {
    var s: Str := [0x57, 0x48, 0xC4, 0xB0, 0x54, 0x45, 0x4C, 0x49, 0x53, 0x54] + rest;
    var w: Str := [0x77, 0x68, 0x69, 0x74, 0x65, 0x6C, 0x69, 0x73, 0x74];
    LowerDottedWhitelist(rest);
    assert ToLower(s)[..9] == w;
    WhitelistBytes();
    assert OccursAt(ToLower(s), OfString("whitelist"), 0);
  }

  /** The whitelist test does not depend on case. */
  lemma WhitelistedIgnoresCase(reason: Str)
    ensures Whitelisted(ToLower(reason)) == Whitelisted(reason)
  {
    ToLowerIdempotent(reason);
  }

  /**
    The login probe of `AnalyzeServer`: dial, send the handshake (next state 2)
    and Login Start, then read the reply. Every failure leaves the server not
    whitelisted.
  */
  method LoginProbe(peer: Peer, ip: Str, port: int, protocol: int) returns (whitelisted: bool, sent: Str)
    ensures sent == if peer.reachable
                    then Delivered(peer, Frame(HandshakePacket(ip, port, protocol, LOGIN_STATE)))
                         + Delivered(peer, Frame(LoginStart(protocol)))
                    else []
    ensures whitelisted == (peer.reachable && peer.acceptsWrites && LoginReply(peer.reply))
  {
    if !peer.reachable {
      return false, [];
    }
    var hsErr, hs := SendHandshake(peer, ip, port, protocol, LOGIN_STATE);
    var ls := BuildLoginStart(protocol);
    var frame := WriteFrame(ls);
    sent := hs + Delivered(peer, frame);
    if !peer.acceptsWrites {
      return false, sent;
    }
    var rest := peer.reply;
    var len := ReadVarInt(rest, 0);
    if len.Failure? {
      return false, sent;
    }
    rest := rest[len.value.next..];
    var id := ReadVarInt(rest, 0);
    var pid := 0;
    if id.Success? {
      pid := id.value.value;
      rest := rest[id.value.next..];
    } else {
      rest := [];
    }
    whitelisted := false;
    if pid == 0 {
      var rLen := ReadVarInt(rest, 0);
      var n := 0;
      if rLen.Success? {
        n := rLen.value.value;
        rest := rest[rLen.value.next..];
      } else {
        rest := [];
      }
      if n >= 0 {
        var reason := ReasonBuffer(rest, n);
        whitelisted := Whitelisted(reason);
      }
    }
  }

  // ---------------------------------------------------------------------------
  // RCON

  /**
    The Source RCON packet `analyzeRcon` sends: length, request id 1, type 3
    (authentication), an empty password and two NUL bytes, each integer 32-bit
    little-endian.
  */
  method RconAuthPacket() returns (packet: Str)
    ensures |packet| == 14
    ensures LittleEndian(packet[..4]) == |packet| - 4
    ensures LittleEndian(packet[4..8]) == 1 && LittleEndian(packet[8..12]) == 3
    ensures packet[12..] == [0x00, 0x00]
    ensures packet == [0x0A, 0x00, 0x00, 0x00, 0x01, 0x00, 0x00, 0x00, 0x03, 0x00, 0x00, 0x00, 0x00, 0x00]
  {
    var payload: Str := [];
    var w := new Writer.Buffer();
    var e0 := w.Write(LE32(|payload| + 10));
    var e1 := w.Write(LE32(1));
    var e2 := w.Write(LE32(3));
    var e3 := w.Write(payload);
    var e4 := w.Write([0x00, 0x00]);
    packet := w.written;
    LE32OfByte(10);
    LE32OfByte(1);
    LE32OfByte(3);
    assert packet == [0x0A, 0x00, 0x00, 0x00, 0x01, 0x00, 0x00, 0x00, 0x03, 0x00, 0x00, 0x00, 0x00, 0x00];
    assert packet[..4] == LE32(10) && packet[4..8] == LE32(1) && packet[8..12] == LE32(3);
  }

  /** `analyzeRcon`: a dial or write failure yields no record; otherwise the record says RCON is open. */
  method AnalyzeRcon(detail: ServerDetail, peer: Peer) returns (r: Result<ServerDetail, ProbeError>, sent: Str)
    ensures !peer.reachable ==> r == Failure(DialFailed) && sent == []
    ensures peer.reachable && !peer.acceptsWrites ==> r == Failure(WriteFailed) && sent == []
    ensures peer.reachable && peer.acceptsWrites ==>
              r == Success(detail.(rconOpen := true, software := RCON_SOFTWARE)) &&
              sent == [0x0A, 0x00, 0x00, 0x00, 0x01, 0x00, 0x00, 0x00, 0x03, 0x00, 0x00, 0x00, 0x00, 0x00]
  {
    if !peer.reachable {
      return Failure(DialFailed), [];
    }
    var packet := RconAuthPacket();
    sent := Delivered(peer, packet);
    if !peer.acceptsWrites {
      return Failure(WriteFailed), sent;
    }
    r := Success(detail.(rconOpen := true, software := RCON_SOFTWARE));
  }

  // ---------------------------------------------------------------------------
  // AnalyzeServer

  /** The mods map after `Mods[m.ModID] = m.Version` for each mod in order. */
  function ModsMap(mods: seq<ForgeMod>): map<Str, Str> {
    if mods == [] then map[]
    else ModsMap(mods[..|mods| - 1])[mods[|mods| - 1].modId := mods[|mods| - 1].version]
  }

  /** Every listed mod id is a key, nothing else is, and a repeated id keeps the version listed last. */
  lemma {:induction false} ModsMapLastWins(mods: seq<ForgeMod>)
    ensures forall k :: k in ModsMap(mods) <==> exists i :: 0 <= i < |mods| && mods[i].modId == k
    ensures forall i :: 0 <= i < |mods| && (forall j :: i < j < |mods| ==> mods[j].modId != mods[i].modId) ==>
              ModsMap(mods)[mods[i].modId] == mods[i].version
    decreases |mods|
  {
    if mods != [] {
      var init := mods[..|mods| - 1];
      ModsMapLastWins(init);
      forall k | k in ModsMap(mods)
        ensures exists i :: 0 <= i < |mods| && mods[i].modId == k
      {
        if k != mods[|mods| - 1].modId {
          var i :| 0 <= i < |init| && init[i].modId == k;
          assert mods[i].modId == k;
        }
      }
      forall k | exists i :: 0 <= i < |mods| && mods[i].modId == k
        ensures k in ModsMap(mods)
      {
        var i :| 0 <= i < |mods| && mods[i].modId == k;
        if i < |init| {
          assert init[i].modId == k;
        }
      }
      forall i | 0 <= i < |mods| && (forall j :: i < j < |mods| ==> mods[j].modId != mods[i].modId)
        ensures ModsMap(mods)[mods[i].modId] == mods[i].version
      {
        if i < |init| {
          assert init[i] == mods[i];
          assert forall j :: i < j < |init| ==> init[j] == mods[j];
        }
      }
    }
  }

  /**
    The part of `AnalyzeServer` that copies the status into the record: the
    version, player counts and secure-chat flag verbatim, the favicon decoded
    when there is one, and each Forge mod in order into the (empty) mods map.
  */
  method FoldStatus(detail: ServerDetail, s: StatusResponse, base64: Str -> Str) returns (d: ServerDetail)
    requires detail.mods == map[] && detail.icon == []
    ensures d == detail.(versionName := s.versionName, protocol := s.protocol, playersMax := s.playersMax,
                         playersOnline := s.playersOnline, enforcesSecureChat := s.enforcesSecureChat,
                         icon := Icon(s.favicon, base64), mods := ModsMap(s.mods))
  {
    d := detail.(versionName := s.versionName, protocol := s.protocol, playersMax := s.playersMax,
                 playersOnline := s.playersOnline, enforcesSecureChat := s.enforcesSecureChat);
    if s.favicon != [] {
      d := d.(icon := base64(TrimPrefix(s.favicon, FAVICON_PREFIX)));
    }
    var mods := d.mods;
    for i := 0 to |s.mods|
      invariant mods == ModsMap(s.mods[..i])
    {
      assert s.mods[..i + 1][..i] == s.mods[..i];
      mods := mods[s.mods[i].modId := s.mods[i].version];
    }
    assert s.mods[..|s.mods|] == s.mods;
    d := d.(mods := mods);
  }

  /** A new record: address, probe time and an empty mods map. */
  function NewDetail(ip: Str, port: int, now: Time): ServerDetail {
    ServerDetail(ip, port, now, [], 0, [], [], 0, 0, [], map[], [], false, false, false)
  }

  /** The favicon as stored: the data-URL prefix removed, then base64-decoded. */
  function Icon(favicon: Str, base64: Str -> Str): Str {
    if favicon == [] then [] else base64(TrimPrefix(favicon, FAVICON_PREFIX))
  }

  /**
    `AnalyzeServer`. `first` is the connection dialled first (the RCON probe on
    port 25575, the status probe otherwise), `login` the one the login probe
    dials, `query` the outcome of the UDP query, `decode` the JSON decoder and
    `base64` the favicon decoder.
  */
  method AnalyzeServer(ip: Str, port: int, now: Time, first: Peer, login: Peer, query: Option<QueryInfo>,
                       decode: Str -> Option<StatusResponse>, base64: Str -> Str)
    returns (r: Result<ServerDetail, ProbeError>)
    ensures port == RCON_PORT ==>
              (r.Success? <==> first.reachable && first.acceptsWrites) &&
              (r.Success? ==> r.value == NewDetail(ip, port, now).(rconOpen := true, software := RCON_SOFTWARE))
    ensures port != RCON_PORT && StatusOf(first, decode).Failure? ==> r == Failure(StatusOf(first, decode).error)
    ensures port != RCON_PORT && StatusOf(first, decode).Success? ==>
              var s := StatusOf(first, decode).value;
              r.Success? &&
              r.value.ip == ip && r.value.port == port && r.value.timestamp == now &&
              r.value.versionName == s.versionName && r.value.protocol == s.protocol &&
              r.value.playersMax == s.playersMax && r.value.playersOnline == s.playersOnline &&
              r.value.enforcesSecureChat == s.enforcesSecureChat &&
              r.value.icon == Icon(s.favicon, base64) &&
              r.value.mods == ModsMap(s.mods) &&
              r.value.isWhitelist == (login.reachable && login.acceptsWrites && LoginReply(login.reply)) &&
              r.value.software == (if query.Some? && query.value.software != [] then query.value.software else []) &&
              r.value.plugins == (if query.Some? then query.value.plugins else []) &&
              r.value.motd == [] && !r.value.rconOpen
  {
    var detail := NewDetail(ip, port, now);
    if port == RCON_PORT {
      var sent;
      r, sent := AnalyzeRcon(detail, first);
      return;
    }
    var status, sent := GetServerStatus(ip, port, first, decode);
    if status.Failure? {
      return Failure(status.error);
    }
    detail := FoldStatus(detail, status.value, base64);

    var whitelisted, loginSent := LoginProbe(login, ip, port, detail.protocol);
    if whitelisted {
      detail := detail.(isWhitelist := true);
    }

    if query.Some? {
      detail := detail.(plugins := query.value.plugins);
      if query.value.software != [] {
        detail := detail.(software := query.value.software);
      }
    }
    r := Success(detail);
  }
}
