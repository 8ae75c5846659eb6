/**
  internal/protocol/types.go: the aggregated probe record and the protocol's
  VarInt — an unsigned base-128 integer, seven bits per byte, least significant
  group first, the high bit of a byte set when more bytes follow.
*/
module Types {
  import opened Wrappers
  import opened Bytes

  /** `time.Time`, reduced to what the model needs: Go's zero time, or some other instant. */
  datatype Time = ZeroTime | Instant(ticks: int)

  /** `ServerDetail`: what one probe of one candidate found. */
  datatype ServerDetail = ServerDetail(
    ip: Str,
    port: int,
    timestamp: Time,
    versionName: Str,
    protocol: int,
    motd: Str,
    icon: Str,
    playersOnline: int,
    playersMax: int,
    software: Str,
    mods: map<Str, Str>,
    plugins: seq<Str>,
    isWhitelist: bool,
    enforcesSecureChat: bool,
    rconOpen: bool)

  const TWO63: nat := 0x8000_0000_0000_0000
  const TWO64: nat := 0x1_0000_0000_0000_0000

  function Pow2(n: nat): (r: nat)
    ensures r >= 1
  {
    if n == 0 then 1 else 2 * Pow2(n - 1)
  }

  lemma Pow2Plus7(n: nat)
    ensures Pow2(n + 7) == 0x80 * Pow2(n)
  {
    calc {
      Pow2(n + 7);
      2 * Pow2(n + 6);
      4 * Pow2(n + 5);
      8 * Pow2(n + 4);
      16 * Pow2(n + 3);
      32 * Pow2(n + 2);
      64 * Pow2(n + 1);
      128 * Pow2(n);
    }
  }

  lemma {:induction false} Pow2Monotonic(m: nat, n: nat)
    requires m <= n
    ensures Pow2(m) <= Pow2(n)
    decreases n
  {
    if m < n {
      Pow2Monotonic(m, n - 1);
    }
  }

  lemma Pow2Constants()
    ensures Pow2(42) == 0x400_0000_0000
    ensures Pow2(63) == TWO63
    ensures Pow2(64) == TWO64
  {
    assert Pow2(7) == 0x80 by { Pow2Plus7(0); }
    assert Pow2(14) == 0x4000 by { Pow2Plus7(7); }
    assert Pow2(21) == 0x20_0000 by { Pow2Plus7(14); }
    assert Pow2(28) == 0x1000_0000 by { Pow2Plus7(21); }
    assert Pow2(35) == 0x8_0000_0000 by { Pow2Plus7(28); }
    assert Pow2(42) == 0x400_0000_0000 by { Pow2Plus7(35); }
    assert Pow2(49) == 0x2_0000_0000_0000 by { Pow2Plus7(42); }
    assert Pow2(56) == 0x100_0000_0000_0000 by { Pow2Plus7(49); }
    assert Pow2(63) == TWO63 by { Pow2Plus7(56); }
  }

  // ---------------------------------------------------------------------------
  // Writing

  /** The continuation bit: more bytes of this VarInt follow. */
  predicate Continues(b: byte) {
    b as int >= 0x80
  }

  /** The seven payload bits of a VarInt byte. */
  function Low7(b: byte): nat {
    b as int % 0x80
  }

  /** The bytes `WriteVarInt` writes for a non-negative value. */
  function Encode(v: nat): (r: Str)
    ensures 1 <= |r|
    decreases v
  {
    if v < 0x80 then [v as byte] else [(v % 0x80 + 0x80) as byte] + Encode(v / 0x80)
  }

  /** Every byte of an encoding but the last carries the continuation bit; the last one does not. */
  lemma {:induction false} EncodeShape(v: nat)
    ensures !Continues(Encode(v)[|Encode(v)| - 1])
    ensures forall i :: 0 <= i < |Encode(v)| - 1 ==> Continues(Encode(v)[i])
    decreases v
  {
    if v >= 0x80 {
      EncodeShape(v / 0x80);
      var r := Encode(v);
      assert r[1..] == Encode(v / 0x80);
      forall i | 1 <= i < |r| - 1
        ensures Continues(r[i])
      {
        assert r[i] == Encode(v / 0x80)[i - 1];
      }
    }
  }

  /** The number whose 7-bit groups, least significant first, are the low bits of `s`. */
  function Groups(s: Str): nat {
    if s == [] then 0 else Low7(s[0]) + 0x80 * Groups(s[1..])
  }

  /** The low seven bits of the encoding are the successive groups of the value. */
  lemma {:induction false} GroupsOfEncode(v: nat)
    ensures Groups(Encode(v)) == v
    decreases v
  {
    if v >= 0x80 {
      GroupsOfEncode(v / 0x80);
      assert Encode(v)[1..] == Encode(v / 0x80);
    }
  }

  /** A value below 128 is written as the single byte equal to it. */
  lemma SmallValueIsOneByte(v: nat)
    requires v < 0x80
    ensures Encode(v) == [v as byte]
  {
  }

  /** The encoding of `v` has at most `k` bytes exactly when `v` fits in `7 * k` bits. */
  lemma {:induction false} EncodeLength(v: nat, k: nat)
    requires k >= 1
    ensures |Encode(v)| <= k <==> v < Pow2(7 * k)
    decreases k
  {
    Pow2Plus7(7 * (k - 1));
    if k == 1 {
      assert Pow2(0) == 1;
    } else if v < 0x80 {
      Pow2Monotonic(7, 7 * k);
      Pow2Plus7(0);
    } else {
      EncodeLength(v / 0x80, k - 1);
    }
  }

  /** A 64-bit value takes at most ten bytes. */
  lemma EncodeAtMostTen(v: nat)
    requires v < TWO64
    ensures |Encode(v)| <= 10
  {
    Pow2Constants();
    Pow2Monotonic(64, 70);
    EncodeLength(v, 10);
  }

  /** Test vectors of varint_test.go. */
  lemma EncodeVectors()
    ensures Encode(0) == [0x00] && Encode(1) == [0x01] && Encode(127) == [0x7F]
    ensures Encode(128) == [0x80, 0x01]
    ensures Encode(255) == [0xFF, 0x01]
    ensures Encode(2097151) == [0xFF, 0xFF, 0x7F]
  {
  }

  /** The number of leading bytes of an `n`-byte write that a destination with `room` accepts, one byte at a time. */
  function Accepted(room: Option<nat>, n: nat): (k: nat)
    ensures k <= n && Fits(room, k)
  {
    if room.Some? && room.value < n then room.value else n
  }

  /**
    `WriteVarInt`: writes the encoding one byte at a time and stops at the first
    write that fails, returning its error. The loop terminates only for a
    non-negative value (see `NegativeValueNeverFits`).
  */
  method WriteVarInt(w: Writer, value: int) returns (err: bool)
    requires value >= 0
    modifies w
    ensures var e := Encode(value);
            var k := Accepted(old(w.room), |e|);
            w.written == old(w.written) + e[..k] && err == (k < |e|) &&
            w.room == Consume(old(w.room), k)
  {
    var v: nat := value;
    ghost var e := Encode(value);
    ghost var room0, written0 := w.room, w.written;
    ghost var sent: Str := [];
    ghost var todo: Str := e;
    while true
      invariant e == sent + todo && todo == Encode(v)
      invariant Fits(room0, |sent|)
      invariant w.written == written0 + sent
      invariant w.room == Consume(room0, |sent|)
      decreases v
    {
      // the low seven bits, with the continuation bit when more groups follow
      var b: byte := if v < 0x80 then v as byte else (v % 0x80 + 0x80) as byte;
      ghost var rest: Str := if v < 0x80 then [] else Encode(v / 0x80);
      assert todo == [b] + rest by { EncodeStep(v); }
      assert e[..|sent| + 1] == sent + [b] && e[..|sent|] == sent && |sent| < |e| &&
             e == (sent + [b]) + rest by {
        PrefixStep(e, sent, b, rest);
      }
      err := w.Write([b]);
      AcceptedStep(room0, |e|, |sent|, err);
      if err {
        return;
      }
      assert written0 + sent + [b] == written0 + (sent + [b]) by { Regroup(written0, sent, [b], []); }
      sent, todo := sent + [b], rest;
      if v < 0x80 {
        assert e == sent && e[..|e|] == e;
        return;
      }
      v := v / 0x80;
    }
  }

  /** The first byte of an encoding, and what follows it. */
  lemma EncodeStep(v: nat)
    ensures v < 0x80 ==> Encode(v) == [v as byte]
    ensures v >= 0x80 ==> Encode(v) == [(v % 0x80 + 0x80) as byte] + Encode(v / 0x80)
  {
  }

  lemma PrefixStep(e: Str, sent: Str, b: byte, rest: Str)
    requires e == sent + ([b] + rest)
    ensures e[..|sent| + 1] == sent + [b] && e[..|sent|] == sent && |sent| < |e|
    ensures e == (sent + [b]) + rest
  {
  }

  /** One more single-byte write: accepted exactly when the destination's room allows one more byte. */
  lemma AcceptedStep(room: Option<nat>, n: nat, done: nat, err: bool)
    requires done < n && Fits(room, done)
    requires err == !Fits(Consume(room, done), 1)
    ensures err ==> Accepted(room, n) == done
    ensures !err ==> Fits(room, done + 1) && Consume(Consume(room, done), 1) == Consume(room, done + 1)
    ensures !err && done + 1 == n ==> Accepted(room, n) == n
    ensures !err && done + 1 < n ==> Accepted(room, n) > done
  {
  }

  /** `WriteVarInt` into a `bytes.Buffer`, which accepts every write. */
  method AppendVarInt(buf: Writer, v: nat)
    requires buf.room.None?
    modifies buf
    ensures buf.written == old(buf.written) + Encode(v) && buf.room.None?
  {
    var err := WriteVarInt(buf, v);
    assert Encode(v)[..|Encode(v)|] == Encode(v);
  }

  // ---------------------------------------------------------------------------
  // Negative values

  /** The loop's exit test `(value & ^0x7F) == 0` on a 64-bit two's-complement int. */
  predicate FitsInGroup(v: int) {
    0 <= v < 0x80
  }

  /** The value after `n` passes of `value >>= 7`, an arithmetic shift (floor division). */
  function AfterPasses(v: int, n: nat): int
    decreases n
  {
    if n == 0 then v else AfterPasses(v / 0x80, n - 1)
  }

  /**
    For a negative value the exit test fails on every pass: the arithmetic shift
    never leaves the negative numbers, so `WriteVarInt` writes 0xFF bytes forever.
  */
  lemma {:induction false} NegativeValueNeverFits(v: int, n: nat)
    requires v < 0
    ensures AfterPasses(v, n) < 0 && !FitsInGroup(AfterPasses(v, n))
    decreases n
  {
    if n > 0 {
      NegativeValueNeverFits(v / 0x80, n - 1);
    }
  }

  /**
    What `WriteVarInt` writes once `value` is taken as a uint64 (so that the
    shift is logical): a negative int is written as its 64-bit two's complement.
    Identical to `Encode` on every non-negative int.
  */
  function EncodeInt64(v: int): (r: Str)
    ensures 0 <= v < TWO64 ==> r == Encode(v)
  {
    Encode(v % TWO64)
  }

  /** `WriteVarInt` with `value` converted to uint64: terminates for every int. */
  method WriteVarInt64(w: Writer, value: int) returns (err: bool)
    modifies w
    ensures var e := EncodeInt64(value);
            var k := Accepted(old(w.room), |e|);
            w.written == old(w.written) + e[..k] && err == (k < |e|) &&
            w.room == Consume(old(w.room), k)
  {
    err := WriteVarInt(w, value % TWO64);
  }

  /** `WriteVarInt64` into a `bytes.Buffer`. */
  method AppendVarInt64(buf: Writer, v: int)
    requires buf.room.None?
    modifies buf
    ensures buf.written == old(buf.written) + EncodeInt64(v) && buf.room.None?
  {
    var err := WriteVarInt64(buf, v);
    assert EncodeInt64(v)[..|EncodeInt64(v)|] == EncodeInt64(v);
  }

  // ---------------------------------------------------------------------------
  // Reading

  /** The index of the first byte at or after `pos` whose continuation bit is clear. */
  function FirstStop(data: Str, pos: nat): (r: Option<nat>)
    ensures r.Some? ==> pos <= r.value < |data| && !Continues(data[r.value])
    ensures r.Some? ==> forall k :: pos <= k < r.value ==> Continues(data[k])
    ensures r.None? ==> forall k :: pos <= k < |data| ==> Continues(data[k])
    decreases |data| - pos
  {
    if pos >= |data| then None
    else if !Continues(data[pos]) then Some(pos)
    else FirstStop(data, pos + 1)
  }

  datatype Decoded = Decoded(value: int, next: nat)

  datatype ReadError = EndOfInput | TooLong

  /** A Go int from its 64-bit two's-complement bit pattern. */
  function Int64(u: nat): int
    requires u < TWO64
  {
    if u < TWO63 then u else u - TWO64
  }

  /**
    What `ReadVarInt` returns reading from `pos`: the groups up to and including
    the first byte without the continuation bit, accumulated into a 64-bit int
    (bits shifted past bit 63 are lost), and the position after that byte; or an
    error if the input ends first. There is no bound on the number of bytes.
  */
  function VarIntAt(data: Str, pos: nat): (r: Result<Decoded, ReadError>)
    ensures r.Success? ==> pos < r.value.next <= |data|
  {
    match FirstStop(data, pos)
    case None => Failure(EndOfInput)
    case Some(j) => Success(Decoded(Int64(Groups(data[pos..j + 1]) % TWO64), j + 1))
  }

  /**
    What `ReadVarIntSafe` returns reading from `pos`: like `VarIntAt`, but it
    gives up with an error once six bytes have all carried the continuation bit.
  */
  function SafeVarIntAt(data: Str, pos: nat): (r: Result<Decoded, ReadError>)
    ensures r.Success? ==> pos < r.value.next <= |data|
  {
    match FirstStop(data, pos)
    case Some(j) =>
      if j - pos < 6 then Success(Decoded(Groups(data[pos..j + 1]), j + 1)) else Failure(TooLong)
    case None =>
      if |data| - pos >= 6 then Failure(TooLong) else Failure(EndOfInput)
  }

  lemma {:induction false} GroupsSnoc(s: Str, b: byte)
    ensures Groups(s + [b]) == Groups(s) + Low7(b) * Pow2(7 * |s|)
    decreases |s|
  {
    if s == [] {
      assert [b][1..] == [];
    } else {
      var t := s + [b];
      assert t[0] == s[0] && t[1..] == s[1..] + [b];
      var l, g, x, p := Low7(s[0]), Groups(s[1..]), Low7(b), Pow2(7 * (|s| - 1));
      assert Groups(t[1..]) == g + x * p by { GroupsSnoc(s[1..], b); }
      assert Pow2(7 * |s|) == 0x80 * p by { Pow2Plus7(7 * (|s| - 1)); }
      assert Groups(t) == l + 0x80 * (g + x * p);
      assert Groups(s) == l + 0x80 * g;
      ShiftGroup(l, g, x, p);
    }
  }

  /** The groups read from `pos` up to and including the byte at `i`. */
  lemma GroupsAt(data: Str, pos: nat, i: nat)
    requires pos <= i < |data|
    ensures Groups(data[pos..i + 1]) == Groups(data[pos..i]) + Low7(data[i]) * Pow2(7 * (i - pos))
  {
    assert data[pos..i + 1] == data[pos..i] + [data[i]];
    GroupsSnoc(data[pos..i], data[i]);
  }

  /** The same, on the 64-bit pattern of the groups. */
  lemma GroupsAtWrapped(data: Str, pos: nat, i: nat, value: nat)
    requires pos <= i < |data| && value == Groups(data[pos..i]) % TWO64
    ensures (value + Low7(data[i]) * Pow2(7 * (i - pos))) % TWO64 == Groups(data[pos..i + 1]) % TWO64
  {
    ModAdd(Groups(data[pos..i]), Low7(data[i]) * Pow2(7 * (i - pos)));
    GroupsAt(data, pos, i);
  }

  /** One more group, seven bits above the rest. */
  lemma ShiftGroup(l: nat, g: nat, x: nat, p: nat)
    ensures l + 0x80 * (g + x * p) == (l + 0x80 * g) + x * (0x80 * p)
  {
    assert 0x80 * (x * p) == x * (0x80 * p);
  }

  lemma {:induction false} GroupsBound(s: Str)
    ensures Groups(s) < Pow2(7 * |s|)
    decreases |s|
  {
    if s != [] {
      GroupsBound(s[1..]);
      Pow2Plus7(7 * (|s| - 1));
    }
  }

  lemma ModAdd(a: nat, x: nat)
    ensures (a % TWO64 + x) % TWO64 == (a + x) % TWO64
  {
  }

  /** `FirstStop` is the stop its contract describes. */
  lemma {:induction false} FirstStopIs(data: Str, pos: nat, j: nat)
    requires pos <= j < |data| && !Continues(data[j])
    requires forall k :: pos <= k < j ==> Continues(data[k])
    ensures FirstStop(data, pos) == Some(j)
    decreases j - pos
  {
    if pos < j {
      assert Continues(data[pos]);
      FirstStopIs(data, pos + 1, j);
    }
  }

  /** No stop precedes a run of continuation bytes. */
  lemma {:induction false} FirstStopBeyond(data: Str, pos: nat, i: nat)
    requires pos <= i <= |data|
    requires forall k :: pos <= k < i ==> Continues(data[k])
    ensures FirstStop(data, pos).Some? ==> FirstStop(data, pos).value >= i
    decreases i - pos
  {
    if pos < i {
      assert Continues(data[pos]);
      FirstStopBeyond(data, pos + 1, i);
    }
  }

  /** `ReadVarInt`: accumulates one byte at a time until a byte without the continuation bit. */
  method ReadVarInt(data: Str, pos: nat) returns (r: Result<Decoded, ReadError>)
    requires pos <= |data|
    ensures r == VarIntAt(data, pos)
  {
    var value: nat := 0;  // the bit pattern of Go's `value`
    var shift: nat := 0;
    var i := pos;
    while true
      invariant pos <= i <= |data|
      invariant shift == 7 * (i - pos)
      invariant forall k :: pos <= k < i ==> Continues(data[k])
      invariant value == Groups(data[pos..i]) % TWO64
      decreases |data| - i
    {
      if i == |data| {
        return Failure(EndOfInput);
      }
      var b := data[i];
      // the groups occupy disjoint bits, so `value |= b&0x7F << shift` adds them
      GroupsAtWrapped(data, pos, i, value);
      value := (value + Low7(b) * Pow2(shift)) % TWO64;
      i := i + 1;
      if !Continues(b) {
        break;
      }
      shift := shift + 7;
    }
    FirstStopIs(data, pos, i - 1);
    r := Success(Decoded(Int64(value), i));
  }

  /** `ReadVarIntSafe`: like `ReadVarInt`, but fails once the shift would exceed 35 bits. */
  method ReadVarIntSafe(data: Str, pos: nat) returns (r: Result<Decoded, ReadError>)
    requires pos <= |data|
    ensures r == SafeVarIntAt(data, pos)
  {
    var value: nat := 0;
    var shift: nat := 0;
    var i := pos;
    while true
      invariant pos <= i <= |data|
      invariant shift == 7 * (i - pos) && i - pos <= 5
      invariant forall k :: pos <= k < i ==> Continues(data[k])
      invariant value == Groups(data[pos..i])
      decreases |data| - i
    {
      if i == |data| {
        return Failure(EndOfInput);
      }
      var b := data[i];
      assert value + Low7(b) * Pow2(shift) == Groups(data[pos..i + 1]) by {
        GroupsAt(data, pos, i);
      }
      value := value + Low7(b) * Pow2(shift);
      i := i + 1;
      if !Continues(b) {
        break;
      }
      shift := shift + 7;
      if shift > 35 {
        assert FirstStop(data, pos).Some? ==> FirstStop(data, pos).value >= pos + 6 by {
          FirstStopBeyond(data, pos, i);
        }
        return Failure(TooLong);
      }
    }
    FirstStopIs(data, pos, i - 1);
    r := Success(Decoded(value, i));
  }

  // ---------------------------------------------------------------------------
  // Properties of reading

  /** Reading an encoding back: the reader stops at its last byte and returns the int with that 64-bit pattern. */
  lemma ReadEncoded(u: nat, before: Str, after: Str)
    requires u < TWO64
    ensures VarIntAt(before + Encode(u) + after, |before|)
            == Success(Decoded(Int64(u), |before| + |Encode(u)|))
  {
    var e := Encode(u);
    assert FirstStop(before + e + after, |before|) == Some(|before| + |e| - 1) by {
      EncodeShape(u);
      EncodedStop(before, e, after);
    }
    assert Groups(e) % TWO64 == u by {
      GroupsOfEncode(u);
      SmallMod(u);
    }
    ReadShaped(e, u, before, after);
  }

  /** Reading a VarInt whose last byte is the last byte of `e` accumulates the groups of `e`. */
  lemma ReadShaped(e: Str, u: nat, before: Str, after: Str)
    requires |e| >= 1 && FirstStop(before + e + after, |before|) == Some(|before| + |e| - 1)
    requires Groups(e) % TWO64 == u
    ensures VarIntAt(before + e + after, |before|) == Success(Decoded(Int64(u), |before| + |e|))
  {
    var d := before + e + after;
    var j := |before| + |e| - 1;
    ReadAtStop(d, |before|, j);
    assert d[|before|..j + 1] == e by { Middle(before, e, after); }
  }

  lemma Middle(before: Str, e: Str, after: Str)
    ensures (before + e + after)[|before|..|before| + |e|] == e
  {
  }

  /** `VarIntAt` at a known stop. */
  lemma ReadAtStop(d: Str, pos: nat, j: nat)
    requires FirstStop(d, pos) == Some(j)
    ensures VarIntAt(d, pos) == Success(Decoded(Int64(Groups(d[pos..j + 1]) % TWO64), j + 1))
  {
  }

  lemma SmallMod(u: nat)
    requires u < TWO64
    ensures u % TWO64 == u
  {
  }

  /** In `before + e + after`, the first stop at or after `|before|` is the last byte of the VarInt `e`. */
  lemma EncodedStop(before: Str, e: Str, after: Str)
    requires |e| >= 1 && !Continues(e[|e| - 1])
    requires forall i :: 0 <= i < |e| - 1 ==> Continues(e[i])
    ensures FirstStop(before + e + after, |before|) == Some(|before| + |e| - 1)
  {
    var d := before + e + after;
    forall k | |before| <= k < |before| + |e|
      ensures d[k] == e[k - |before|]
    {
    }
    FirstStopIs(d, |before|, |before| + |e| - 1);
  }

  /** Round trip: reading what `WriteVarInt` wrote gives back the value and consumes exactly those bytes. */
  lemma RoundTrip(v: nat, before: Str, after: Str)
    requires v < TWO63
    ensures VarIntAt(before + Encode(v) + after, |before|)
            == Success(Decoded(v, |before| + |Encode(v)|))
  {
    ReadEncoded(v, before, after);
  }

  /** With the uint64 conversion, every Go int (negative ones included) survives the round trip. */
  lemma RoundTripInt64(v: int, before: Str, after: Str)
    requires -(TWO63 as int) <= v < TWO63
    ensures VarIntAt(before + EncodeInt64(v) + after, |before|)
            == Success(Decoded(v, |before| + |EncodeInt64(v)|))
  {
    var u := v % TWO64;
    assert Int64(u) == v by {
      if v < 0 {
        assert u == v + TWO64;
      }
    }
    assert EncodeInt64(v) == Encode(u);
    ReadEncoded(u, before, after);
  }

  /** The bounded reader reads back every value of at most 42 bits (six bytes). */
  lemma SafeRoundTrip(v: nat, before: Str, after: Str)
    requires v < Pow2(42)
    ensures SafeVarIntAt(before + Encode(v) + after, |before|)
            == Success(Decoded(v, |before| + |Encode(v)|))
  {
    Pow2Constants();
    ReadEncoded(v, before, after);
    EncodeLength(v, 6);
    var d := before + Encode(v) + after;
    assert d[|before|..|before| + |Encode(v)|] == Encode(v);
    GroupsOfEncode(v);
  }

  /** Whenever the bounded reader succeeds, the unbounded one returns the same value and position. */
  lemma SafeAgrees(data: Str, pos: nat)
    requires SafeVarIntAt(data, pos).Success?
    ensures VarIntAt(data, pos) == SafeVarIntAt(data, pos)
    ensures 0 <= SafeVarIntAt(data, pos).value.value < Pow2(42)
  {
    var j := FirstStop(data, pos).value;
    var s := data[pos..j + 1];
    assert j - pos < 6 && SafeVarIntAt(data, pos) == Success(Decoded(Groups(s), j + 1));
    assert VarIntAt(data, pos) == Success(Decoded(Int64(Groups(s) % TWO64), j + 1));
    ShortGroups(s);
  }

  /** At most six groups make a value below 2^42, which the 64-bit accumulation leaves unchanged. */
  lemma ShortGroups(s: Str)
    requires |s| <= 6
    ensures Groups(s) < Pow2(42) && Int64(Groups(s) % TWO64) == Groups(s)
  {
    var g := Groups(s);
    assert g < Pow2(42) by {
      GroupsBound(s);
      Pow2Monotonic(7 * |s|, 42);
    }
    assert Pow2(42) < TWO63 by { Pow2Constants(); }
    assert g % TWO64 == g by { SmallMod(g); }
  }

  /** The bounded reader consumes at most six bytes, and fails with `TooLong` exactly when six continuation bytes are available. */
  lemma SafeBound(data: Str, pos: nat)
    requires pos <= |data|
    ensures SafeVarIntAt(data, pos).Success? ==> SafeVarIntAt(data, pos).value.next <= pos + 6
    ensures SafeVarIntAt(data, pos) == Failure(TooLong) <==>
            (pos + 6 <= |data| && forall k :: pos <= k < pos + 6 ==> Continues(data[k]))
  {
  }

  /** The reader stops at the first byte without the continuation bit: the bytes after it do not matter. */
  lemma ReadStopsAtFirstStop(data: Str, pos: nat, tail: Str)
    requires VarIntAt(data, pos).Success?
    ensures VarIntAt(data + tail, pos) == VarIntAt(data, pos)
  {
    var j := FirstStop(data, pos).value;
    var d := data + tail;
    assert d[pos..j + 1] == data[pos..j + 1];
    forall k | pos <= k <= j
      ensures d[k] == data[k]
    {
    }
    FirstStopIs(d, pos, j);
  }

  /** The reader fails exactly when the input ends before a byte without the continuation bit. */
  lemma ReadFailsOnlyAtEnd(data: Str, pos: nat)
    requires pos <= |data|
    ensures VarIntAt(data, pos).Failure? <==> forall k :: pos <= k < |data| ==> Continues(data[k])
    ensures VarIntAt(data, pos).Failure? ==> VarIntAt(data, pos).error == EndOfInput
  {
    if VarIntAt(data, pos).Success? {
      var j := FirstStop(data, pos).value;
      assert !Continues(data[j]);
    }
  }

  /** Test vectors of analyzer_test.go for `ReadVarIntSafe`. */
  lemma SafeVectors()
    ensures SafeVarIntAt([0x05], 0) == Success(Decoded(5, 1))
    ensures SafeVarIntAt([0xAC, 0x02], 0) == Success(Decoded(300, 2))
    ensures SafeVarIntAt([0xFF, 0xFF, 0xFF, 0xFF, 0xFF, 0xFF], 0) == Failure(TooLong)
    ensures SafeVarIntAt([0x80], 0) == Failure(EndOfInput)
  {
    var two: Str := [0xAC, 0x02];
    assert FirstStop(two, 0) == Some(1);
    assert two[0..2] == two && two[1..] == [0x02] && [0x02 as byte][1..] == [];
  }

  /** A ten-byte VarInt whose groups fill all 64 bits reads as -1. */
  lemma ReadsMinusOne()
    ensures VarIntAt([0xFF, 0xFF, 0xFF, 0xFF, 0xFF, 0xFF, 0xFF, 0xFF, 0xFF, 0x01], 0)
            == Success(Decoded(-1, 10))
  {
    var d: Str := [0xFF, 0xFF, 0xFF, 0xFF, 0xFF, 0xFF, 0xFF, 0xFF, 0xFF, 0x01];
    assert FirstStop(d, 0) == Some(9);
    assert d[0..10] == d;
    assert Groups(d[9..]) == 1;
    assert Groups(d[8..]) == 0x7F + 0x80;
    assert Groups(d[7..]) == 0x7F + 0x80 * Groups(d[8..]);
    assert Groups(d[6..]) == 0x7F + 0x80 * Groups(d[7..]);
    assert Groups(d[5..]) == 0x7F + 0x80 * Groups(d[6..]);
    assert Groups(d[4..]) == 0x7F + 0x80 * Groups(d[5..]);
    assert Groups(d[3..]) == 0x7F + 0x80 * Groups(d[4..]);
    assert Groups(d[2..]) == 0x7F + 0x80 * Groups(d[3..]);
    assert Groups(d[1..]) == 0x7F + 0x80 * Groups(d[2..]);
    assert Groups(d) == 0x7F + 0x80 * Groups(d[1..]);
    assert Groups(d) == TWO64 - 1;
  }

  // ---------------------------------------------------------------------------
  // Reading from the front of a stream

  /**
    `ReadVarInt` on a stream whose unread bytes are `d`: the value and the bytes
    still unread. A failed read has consumed every byte of the stream.
  */
  function TakeVarInt(d: Str): (r: Result<(int, Str), ReadError>)
    ensures r.Success? ==> |r.value.1| < |d|
  {
    match VarIntAt(d, 0)
    case Success(x) => Success((x.value, d[x.next..]))
    case Failure(e) => Failure(e)
  }

  /** `ReadVarIntSafe` on a stream whose unread bytes are `d`. */
  function TakeSafeVarInt(d: Str): (r: Result<(int, Str), ReadError>)
    ensures r.Success? ==> 0 <= r.value.0 && |r.value.1| < |d|
  {
    match SafeVarIntAt(d, 0)
    case Success(x) => Success((x.value, d[x.next..]))
    case Failure(e) => Failure(e)
  }

  /** A read whose error is discarded: Go's `v, _ := ReadVarInt(r)` yields 0 and an exhausted stream. */
  function OrZero(r: Result<(int, Str), ReadError>): (int, Str) {
    if r.Success? then r.value else (0, [])
  }

  /** Reading a value written by `WriteVarInt` off the front of a stream. */
  lemma TakeEncoded(v: nat, after: Str)
    requires v < TWO63
    ensures TakeVarInt(Encode(v) + after) == Success((v, after))
  {
    RoundTrip(v, [], after);
    assert [] + Encode(v) + after == Encode(v) + after;
    assert (Encode(v) + after)[|Encode(v)|..] == after;
  }

  /** The same through the uint64 conversion, for every Go int. */
  lemma TakeEncodedInt64(v: int, after: Str)
    requires -(TWO63 as int) <= v < TWO63
    ensures TakeVarInt(EncodeInt64(v) + after) == Success((v, after))
  {
    RoundTripInt64(v, [], after);
    assert [] + EncodeInt64(v) + after == EncodeInt64(v) + after;
    assert (EncodeInt64(v) + after)[|EncodeInt64(v)|..] == after;
  }

  /** The bounded reader reads back every value of at most 42 bits off the front of a stream. */
  lemma TakeSafeEncoded(v: nat, after: Str)
    requires v < Pow2(42)
    ensures TakeSafeVarInt(Encode(v) + after) == Success((v, after))
  {
    SafeRoundTrip(v, [], after);
    assert [] + Encode(v) + after == Encode(v) + after;
    assert (Encode(v) + after)[|Encode(v)|..] == after;
  }
}
