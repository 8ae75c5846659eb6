/**
  Byte strings and the pieces of Go's standard library the crawler leans on:
  `bytes.Buffer` / `io.Writer`, `encoding/binary` fixed-width integers, `%d`
  decimal text, `bytes.Split` / `strings.Split` on one separator byte,
  `strings.Contains`, `strings.ToLower` and `strings.TrimPrefix`.
*/
module Bytes {
  import opened Wrappers

  newtype byte = x: int | 0 <= x < 256

  /** A Go string: an immutable sequence of bytes (Go does not require UTF-8). */
  type Str = seq<byte>

  /** The bytes of a literal; every literal of this model is ASCII. */
  function OfString(s: string): (r: Str)
    ensures |r| == |s|
  {
    seq(|s|, i requires 0 <= i < |s| => (s[i] as int % 256) as byte)
  }

  /**
    The largest length `make([]byte, n)` accepts on 64-bit Linux (the
    runtime's `maxAlloc`, 2^48 bytes); a larger or negative length panics.
  */
  const MAX_ALLOC: nat := 0x1_0000_0000_0000

  // ---------------------------------------------------------------------------
  // Writers

  /** Whether a destination with `room` left accepts a write of `k` bytes. */
  predicate Fits(room: Option<nat>, k: nat) {
    room.None? || k <= room.value
  }

  function Consume(room: Option<nat>, k: nat): Option<nat>
    requires Fits(room, k)
  {
    if room.None? then None else Some(room.value - k)
  }

  /**
    An `io.Writer`. `room == None` is an in-memory `bytes.Buffer`, which never
    fails; `room == Some(n)` is a destination that accepts `n` more bytes and
    then refuses every write. A write is accepted whole or not at all.
  */
  class Writer {
    var written: Str
    var room: Option<nat>

    constructor Buffer()
      ensures written == [] && room == None
    {
      written := [];
      room := None;
    }

    constructor Bounded(n: nat)
      ensures written == [] && room == Some(n)
    {
      written := [];
      room := Some(n);
    }

    method Write(b: Str) returns (err: bool)
      modifies this
      ensures err == !Fits(old(room), |b|)
      ensures written == if err then old(written) else old(written) + b
      ensures room == if err then old(room) else Consume(old(room), |b|)
    {
      if Fits(room, |b|) {
        written := written + b;
        room := Consume(room, |b|);
        err := false;
      } else {
        err := true;
      }
    }

    /** `bytes.Buffer.Reset`: forget everything written so far. */
    method Reset()
      modifies this
      ensures written == [] && room == old(room)
    {
      written := [];
    }
  }

  /** Concatenation regrouped to the right, for byte strings read from the front. */
  lemma Regroup(a: Str, b: Str, c: Str, d: Str)
    ensures a + b + c == a + (b + c)
    ensures a + b + c + d == a + (b + (c + d))
  {
  }

  // ---------------------------------------------------------------------------
  // Fixed-width integers (`binary.Write` of uint16 / int32)

  /** The unsigned value of bytes read most significant first. */
  function BigEndian(s: Str): nat {
    if s == [] then 0 else BigEndian(s[..|s| - 1]) * 256 + s[|s| - 1] as int
  }

  /** The unsigned value of bytes read least significant first. */
  function LittleEndian(s: Str): nat {
    if s == [] then 0 else s[0] as int + 256 * LittleEndian(s[1..])
  }

  /** `binary.Write(w, binary.BigEndian, uint16(x))`: the conversion keeps the low 16 bits. */
  function BE16(x: int): (r: Str)
    ensures |r| == 2 && BigEndian(r) == x % 0x1_0000
  {
    var u := x % 0x1_0000;
    var r := [(u / 0x100) as byte, (u % 0x100) as byte];
    assert r[..1] == [r[0]] && [r[0]][..0] == [];
    assert BigEndian([r[0]]) == r[0] as int;
    r
  }

  /** `binary.Write(w, binary.BigEndian, int32(x))`: two's complement, most significant byte first. */
  function BE32(x: int): (r: Str)
    ensures |r| == 4 && BigEndian(r) == x % 0x1_0000_0000
  {
    var u := x % 0x1_0000_0000;
    var q1 := u / 0x100;
    var q2 := q1 / 0x100;
    var q3 := q2 / 0x100;
    var r := [q3 as byte, (q2 % 0x100) as byte, (q1 % 0x100) as byte, (u % 0x100) as byte];
    assert r[..3] == [r[0], r[1], r[2]] && [r[0], r[1], r[2]][..2] == [r[0], r[1]];
    assert [r[0], r[1]][..1] == [r[0]] && [r[0]][..0] == [];
    assert BigEndian([r[0]]) == q3;
    assert BigEndian([r[0], r[1]]) == q2;
    assert BigEndian([r[0], r[1], r[2]]) == q1;
    r
  }

  /** `binary.Write(w, binary.LittleEndian, int32(x))`: two's complement, least significant byte first. */
  function LE32(x: int): (r: Str)
    ensures |r| == 4 && LittleEndian(r) == x % 0x1_0000_0000
  {
    var u := x % 0x1_0000_0000;
    var q1 := u / 0x100;
    var q2 := q1 / 0x100;
    var q3 := q2 / 0x100;
    var r := [(u % 0x100) as byte, (q1 % 0x100) as byte, (q2 % 0x100) as byte, q3 as byte];
    assert r[1..] == [r[1], r[2], r[3]] && [r[1], r[2], r[3]][1..] == [r[2], r[3]];
    assert [r[2], r[3]][1..] == [r[3]] && [r[3]][1..] == [];
    assert LittleEndian([r[3]]) == q3;
    assert LittleEndian([r[2], r[3]]) == q2;
    assert LittleEndian([r[1], r[2], r[3]]) == q1;
    r
  }

  /** A value below 256 is its own low byte followed by three zero bytes. */
  lemma LE32OfByte(x: int)
    requires 0 <= x < 0x100
    ensures LE32(x) == [x as byte, 0x00, 0x00, 0x00]
  {
  }

  // ---------------------------------------------------------------------------
  // Decimal text (`fmt.Sprintf("%d", n)` and the digits `fmt.Sscanf` accepts)

  predicate IsDigit(b: byte) {
    '0' as int <= b as int <= '9' as int
  }

  /** The number a run of decimal digits denotes. */
  function DigitsValue(s: Str): nat
    requires forall i :: 0 <= i < |s| ==> IsDigit(s[i])
  {
    if s == [] then 0
    else
      assert IsDigit(s[|s| - 1]);
      10 * DigitsValue(s[..|s| - 1]) + (s[|s| - 1] as int - '0' as int)
  }

  /** The decimal digits of a natural number, with no leading zero. */
  function NatText(n: nat): (r: Str)
    ensures |r| >= 1 && forall i :: 0 <= i < |r| ==> IsDigit(r[i])
    ensures DigitsValue(r) == n
    ensures r[0] == '0' as int as byte ==> n == 0
    decreases n
  {
    if n < 10 then [('0' as int + n) as byte]
    else
      var r := NatText(n / 10) + [('0' as int + n % 10) as byte];
      assert r[..|r| - 1] == NatText(n / 10);
      r
  }

  /** `fmt.Sprintf("%d", n)`. */
  function Decimal(n: int): Str {
    if n < 0 then OfString("-") + NatText(-n) else NatText(n)
  }

  // ---------------------------------------------------------------------------
  // Splitting and searching

  /** The parts joined back together with `sep` between consecutive parts. */
  function JoinWith(parts: seq<Str>, sep: byte): Str
    requires |parts| >= 1
  {
    if |parts| == 1 then parts[0] else parts[0] + [sep] + JoinWith(parts[1..], sep)
  }

  /**
    `bytes.Split(s, []byte{sep})` and `strings.Split(s, string(sep))`: the
    maximal runs between separators, one more part than there are separators.
  */
  function SplitOn(s: Str, sep: byte): (parts: seq<Str>)
    ensures |parts| >= 1
    decreases |s|
  {
    if s == [] then [[]]
    else
      var rest := SplitOn(s[1..], sep);
      if s[0] == sep then [[]] + rest else [[s[0]] + rest[0]] + rest[1..]
  }

  /** The parts hold no separator, and joining them with it gives back the input. */
  lemma {:induction false} SplitJoin(s: Str, sep: byte)
    ensures forall i :: 0 <= i < |SplitOn(s, sep)| ==> sep !in SplitOn(s, sep)[i]
    ensures JoinWith(SplitOn(s, sep), sep) == s
    decreases |s|
  {
    if s != [] {
      SplitJoin(s[1..], sep);
      var rest := SplitOn(s[1..], sep);
      var parts := SplitOn(s, sep);
      assert s == [s[0]] + s[1..];
      if s[0] == sep {
        assert parts[1..] == rest;
      } else {
        assert |parts| == 1 ==> parts[0] == [s[0]] + JoinWith(rest, sep);
        assert |parts| > 1 ==> parts[1..] == rest[1..] && JoinWith(rest, sep) == rest[0] + [sep] + JoinWith(rest[1..], sep);
      }
    }
  }

  /** There is one more part than there are separators. */
  lemma {:induction false} SplitCount(s: Str, sep: byte)
    ensures |SplitOn(s, sep)| == multiset(s)[sep] + 1
    decreases |s|
  {
    if s != [] {
      SplitCount(s[1..], sep);
      assert s == [s[0]] + s[1..];
    }
  }

  /** Whether `pat` occurs in `s` at index `i`. */
  predicate OccursAt(s: Str, pat: Str, i: int) {
    0 <= i && i + |pat| <= |s| && s[i..i + |pat|] == pat
  }

  /** The first index at or after `i` where `pat` occurs in `s`. */
  function FindFrom(s: Str, pat: Str, i: nat): (r: Option<nat>)
    ensures r.Some? ==> i <= r.value && OccursAt(s, pat, r.value)
    ensures r.Some? ==> forall j :: i <= j < r.value ==> !OccursAt(s, pat, j)
    ensures r.None? ==> forall j :: i <= j ==> !OccursAt(s, pat, j)
    decreases |s| - i
  {
    if i + |pat| > |s| then None
    else if s[i..i + |pat|] == pat then Some(i)
    else FindFrom(s, pat, i + 1)
  }

  /** `strings.Contains` / `bytes.Contains`. */
  predicate Contains(s: Str, pat: Str) {
    exists i :: 0 <= i <= |s| - |pat| && OccursAt(s, pat, i)
  }

  /** `unicode.ToLower` on an ASCII byte: `A`..`Z` become `a`..`z`, every other byte is kept. */
  function LowerByte(b: byte): byte {
    if 'A' as int <= b as int <= 'Z' as int then b + 32 else b
  }

  /**
    `strings.ToLower` as far as ASCII text can tell. ASCII capitals are
    lowered, and the two non-ASCII capitals whose lower case is ASCII, U+0130
    (`C4 B0`) and the Kelvin sign U+212A (`E2 84 AA`), become `i` and `k`. Go
    also rewrites the other non-ASCII runes and invalid bytes, always into
    non-ASCII bytes; the model keeps those bytes as they are.
  */
  function ToLower(s: Str): (r: Str)
    ensures |r| <= |s|
    decreases |s|
  {
    if s == [] then []
    else if |s| >= 2 && s[0] == 0xC4 && s[1] == 0xB0 then [0x69] + ToLower(s[2..])
    else if |s| >= 3 && s[0] == 0xE2 && s[1] == 0x84 && s[2] == 0xAA then [0x6B] + ToLower(s[3..])
    else [LowerByte(s[0])] + ToLower(s[1..])
  }

  /** `strings.TrimPrefix`. */
  function TrimPrefix(s: Str, prefix: Str): (r: Str)
    ensures |s| >= |prefix| && s[..|prefix|] == prefix ==> prefix + r == s
    ensures !(|s| >= |prefix| && s[..|prefix|] == prefix) ==> r == s
  {
    if |s| >= |prefix| && s[..|prefix|] == prefix then s[|prefix|..] else s
  }
}
