/**
  internal/protocol/slp.go: the earlier Server List Ping status probe. It
  sends the same handshake and Status Request bytes as the probe of
  internal/protocol/analyzer.go, but reads the JSON length with the unbounded
  `ReadVarInt` and discards that read's error.
*/
module Slp {
  import opened Wrappers
  import opened Bytes
  import opened Types
  import opened Analyzer

  /** What the earlier probe does with a reply: it returns, or it panics at run time. */
  datatype LegacyOutcome = Returned(r: Result<StatusResponse, ProbeError>) | Panics

  /** The Status Request as slp.go writes it: the length 1 and the packet id 0, each as a VarInt. */
  function LegacyStatusRequest(): (r: Str)
    ensures r == StatusRequest()
  {
    Encode(1) + Encode(0)
  }

  /**
    How slp.go reads the reply: the packet length (a failed read is an error),
    the packet id and the JSON length (failed reads count as 0), then a buffer of
    the JSON length. `make` panics on a negative length and on one above
    `MAX_ALLOC`.
  */
  function LegacyReply(reply: Str, decode: Str -> Option<StatusResponse>): LegacyOutcome {
    match TakeVarInt(reply)
    case Failure(e) => Returned(Failure(ReadFailed(e)))
    case Success((_, afterLen)) =>
      var (id, afterId) := OrZero(TakeVarInt(afterLen));
      if id != 0 then Returned(Failure(WrongPacketId))
      else
        var (n, afterN) := OrZero(TakeVarInt(afterId));
        if n < 0 || n > MAX_ALLOC then Panics
        else if n > |afterN| then Returned(Failure(ShortRead))
        else
          match decode(afterN[..n])
          case None => Returned(Failure(BadJson))
          case Some(s) => Returned(Success(s))
  }

  /**
    slp.go's `GetServerStatus`: a dial failure is an error; otherwise it sends
    the handshake (protocol 763, next state 1) and the literal Status Request,
    ignoring write errors, and reads the reply.
  */
  method LegacyGetServerStatus(host: Str, port: int, peer: Peer, decode: Str -> Option<StatusResponse>)
    returns (outcome: LegacyOutcome, sent: Str)
    ensures sent == if peer.reachable
                    then Delivered(peer, Frame(HandshakePacket(host, port, STATUS_PROTOCOL, STATUS_STATE)))
                         + Delivered(peer, LegacyStatusRequest())
                    else []
    ensures outcome == if peer.reachable then LegacyReply(peer.reply, decode) else Returned(Failure(DialFailed))
  {
    if !peer.reachable {
      return Returned(Failure(DialFailed)), [];
    }
    var packet := BuildHandshake(host, port, STATUS_PROTOCOL, STATUS_STATE);
    var fullPacket := WriteFrame(packet);
    var statusReq := new Writer.Buffer();
    AppendVarInt(statusReq, 1);
    AppendVarInt(statusReq, 0);
    sent := Delivered(peer, fullPacket) + Delivered(peer, statusReq.written);
    outcome := ReadLegacyReply(peer.reply, decode);
  }

  /** The reads of slp.go's `GetServerStatus`, one VarInt after another off the reply. */
  method ReadLegacyReply(reply: Str, decode: Str -> Option<StatusResponse>) returns (outcome: LegacyOutcome)
    ensures outcome == LegacyReply(reply, decode)
  {
    var rest := reply;
    var len := ReadVarInt(rest, 0);
    if len.Failure? {
      return Returned(Failure(ReadFailed(len.error)));
    }
    rest := rest[len.value.next..];
    var packetId := 0;
    var id := ReadVarInt(rest, 0);
    if id.Success? {
      packetId := id.value.value;
      rest := rest[id.value.next..];
    } else {
      rest := [];
    }
    if packetId != 0 {
      return Returned(Failure(WrongPacketId));
    }
    var jsonLen := 0;
    var jl := ReadVarInt(rest, 0);
    if jl.Success? {
      jsonLen := jl.value.value;
      rest := rest[jl.value.next..];
    } else {
      rest := [];
    }
    if jsonLen < 0 || jsonLen > MAX_ALLOC {
      return Panics;
    }
    if jsonLen > |rest| {
      return Returned(Failure(ShortRead));
    }
    var jsonBytes := rest[..jsonLen];
    match decode(jsonBytes)
    case None =>
      outcome := Returned(Failure(BadJson));
    case Some(s) =>
      outcome := Returned(Success(s));
  }

  /** Where the bounded reader succeeds, the unbounded one reads the same; where it runs out of input, so does the unbounded one. */
  lemma TakeAgrees(d: Str)
    ensures TakeSafeVarInt(d).Success? ==> TakeVarInt(d) == TakeSafeVarInt(d) && TakeSafeVarInt(d).value.0 < 0x400_0000_0000
    ensures TakeSafeVarInt(d) == Failure(EndOfInput) ==> TakeVarInt(d) == Failure(EndOfInput)
  {
    if SafeVarIntAt(d, 0).Success? {
      SafeAgrees(d, 0);
    }
    Pow2Constants();
    ReadFailsOnlyAtEnd(d, 0);
  }

  /**
    The bounded reader of analyzer.go corrects slp.go: every reply on which
    slp.go panics is refused with `TooLong`, and wherever analyzer.go returns a
    status or an error other than a failed read, slp.go returns the same.
  */
  lemma LegacyAgrees(reply: Str, decode: Str -> Option<StatusResponse>)
    ensures LegacyReply(reply, decode) == Panics ==> StatusReply(reply, decode) == Failure(ReadFailed(TooLong))
    ensures StatusReply(reply, decode).Success? || !StatusReply(reply, decode).error.ReadFailed? ==>
              LegacyReply(reply, decode) == Returned(StatusReply(reply, decode))
  {
    if TakeVarInt(reply).Success? {
      var (_, afterLen) := TakeVarInt(reply).value;
      var (id, afterId) := OrZero(TakeVarInt(afterLen));
      if id == 0 {
        TakeAgrees(afterId);
      }
    }
  }

  /** A JSON length above `MAX_ALLOC` makes slp.go panic as well. */
  lemma HugeJsonLengthPanics(len: nat, n: nat, rest: Str, decode: Str -> Option<StatusResponse>)
    requires len < TWO63 && MAX_ALLOC < n < TWO63
    ensures LegacyReply(Encode(len) + Encode(0) + Encode(n) + rest, decode) == Panics
  {
    var a1 := Encode(n) + rest;
    var a0 := Encode(0) + a1;
    assert Encode(len) + Encode(0) + Encode(n) + rest == Encode(len) + a0 by {
      Regroup(Encode(len), Encode(0), Encode(n), rest);
    }
    assert TakeVarInt(Encode(len) + a0) == Success((len as int, a0)) by {
      TakeEncoded(len, a0);
    }
    assert TakeVarInt(a0) == Success((0, a1)) by {
      TakeEncoded(0, a1);
    }
    assert TakeVarInt(a1) == Success((n as int, rest)) by {
      TakeEncoded(n, rest);
    }
  }

  /**
    A JSON length that reads as -1 — nine `FF` bytes and `01` — makes slp.go
    panic, where analyzer.go refuses it.
  */
  lemma NegativeJsonLengthPanics(decode: Str -> Option<StatusResponse>)
    ensures LegacyReply([0x0C, 0x00] + MINUS_ONE, decode) == Panics
    ensures StatusReply([0x0C, 0x00] + MINUS_ONE, decode) == Failure(ReadFailed(TooLong))
  {
    var afterLen: Str := [0x00] + MINUS_ONE;
    assert TakeVarInt([0x0C, 0x00] + MINUS_ONE) == Success((12, afterLen)) by {
      assert Encode(12) == [0x0C];
      assert [0x0C, 0x00] + MINUS_ONE == [0x0C] + afterLen;
      TakeEncoded(12, afterLen);
    }
    assert TakeVarInt(afterLen) == Success((0, MINUS_ONE)) by {
      assert Encode(0) == [0x00];
      TakeEncoded(0, MINUS_ONE);
    }
    assert TakeVarInt(MINUS_ONE) == Success((-1, [])) by {
      ReadsMinusOne();
    }
    assert StatusReply([0x0C, 0x00] + MINUS_ONE, decode) == Failure(ReadFailed(TooLong)) by {
      var tail: Str := [0xFF, 0xFF, 0xFF, 0x01];
      assert Encode(12) + Encode(0) + [0xFF, 0xFF, 0xFF, 0xFF, 0xFF, 0xFF] + tail == [0x0C, 0x00] + MINUS_ONE;
      StatusRejectsLongLength(12, tail, decode);
    }
  }
}
