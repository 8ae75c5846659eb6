/**
  internal/protocol/query.go: the UDP Query protocol (GameSpy 4 style) as
  Minecraft servers answer it. A challenge datagram asks for a token; a
  full-stat datagram carrying the token asks for the server's key/value
  section, which is split on NUL bytes and paired into a map; the plugin list
  is read out of the `plugins` value.

  The UDP socket is a `UdpPeer`: whether dialling succeeds, whether writes
  succeed, and the datagram (if any) each of the two reads receives.
*/
module Query {
  import opened Wrappers
  import opened Bytes

  /** The session id, `0x01010101 & 0x0F0F0F0F` as the client computes it. */
  const SESSION_ID: int := ((0x0101_0101 as bv32) & 0x0F0F_0F0F) as int

  /** `conn.Read` fills a buffer of this many bytes; a longer datagram is cut off. */
  const READ_BUFFER: nat := 1500

  /** The reply offset at which the challenge token text starts. */
  const TOKEN_OFFSET: nat := 5
  /** The reply offset at which the key/value section starts. */
  const STAT_OFFSET: nat := 11

  /** `\x00\x01player_\x00\x00`: the end of the key/value section and the start of the player list. */
  const MARKER: Str := [0x00, 0x01, 0x70, 0x6C, 0x61, 0x79, 0x65, 0x72, 0x5F, 0x00, 0x00]

  const NUL: byte := 0x00
  const COLON: byte := 0x3A
  const SEMICOLON: byte := 0x3B
  const PLUS: byte := 0x2B
  const MINUS: byte := 0x2D
  const NEWLINE: byte := 0x0A
  const SPACE: byte := 0x20

  const PLUGINS_KEY: Str := OfString("plugins")

  const INT32_MIN: int := -0x8000_0000
  const INT32_MAX: int := 0x7FFF_FFFF

  /** One UDP socket: `None` as a reply is a read that fails (a timeout). */
  datatype UdpPeer = UdpPeer(dialable: bool, acceptsWrites: bool, challengeReply: Option<Str>, statReply: Option<Str>)

  datatype QueryError = DialFailed | WriteFailed | ReadFailed

  /**
    What `QueryFullStat` returns: the key/value map and the plugins; an error;
    or `Silent` — no map, no plugins and no error — when a reply is too short.
  */
  datatype QueryOutcome = Stat(kv: map<Str, Str>, plugins: seq<Str>) | Failed(error: QueryError) | Silent

  // ---------------------------------------------------------------------------
  // Datagrams

  /** The session id is unchanged by its mask. */
  lemma SessionIdValue()
    ensures SESSION_ID == 0x0101_0101
    ensures BE32(SESSION_ID) == [0x01, 0x01, 0x01, 0x01]
  {
    assert (0x0101_0101 as bv32) & 0x0F0F_0F0F == 0x0101_0101;
  }

  /** The challenge request: magic `FE FD`, type 9 (handshake), then the session id. */
  function ChallengeDatagram(): (r: Str)
    ensures r == [0xFE, 0xFD, 0x09, 0x01, 0x01, 0x01, 0x01]
  {
    SessionIdValue();
    [0xFE, 0xFD, 0x09] + BE32(SESSION_ID)
  }

  /** The full-stat request: magic, type 0 (stat), session id, token, and four bytes of padding. */
  function FullStatDatagram(token: int): (r: Str)
    ensures |r| == 15
    ensures r[..7] == [0xFE, 0xFD, 0x00, 0x01, 0x01, 0x01, 0x01]
    ensures BigEndian(r[7..11]) == token % 0x1_0000_0000
    ensures r[11..] == [0x00, 0x00, 0x00, 0x00]
  {
    SessionIdValue();
    var r := [0xFE, 0xFD, 0x00] + BE32(SESSION_ID) + BE32(token) + [0x00, 0x00, 0x00, 0x00];
    assert r[7..11] == BE32(token);
    r
  }

  /** What one `conn.Read(resp)` into the 1500-byte buffer yields from a datagram. */
  function Received(datagram: Str): Str {
    if |datagram| <= READ_BUFFER then datagram else datagram[..READ_BUFFER]
  }

  // ---------------------------------------------------------------------------
  // The challenge token

  /** The longest prefix of `s` made of decimal digits. */
  function LeadingDigits(s: Str): (r: Str)
    ensures |r| <= |s| && r == s[..|r|]
    ensures forall i :: 0 <= i < |r| ==> IsDigit(r[i])
    ensures |r| < |s| ==> !IsDigit(s[|r|])
  {
    if s == [] || !IsDigit(s[0]) then []
    else
      var r := [s[0]] + LeadingDigits(s[1..]);
      assert s == [s[0]] + s[1..];
      r
  }

  /**
    The width of the white-space rune `s` starts with, as `fmt` counts white
    space: tab, vertical tab, form feed, carriage return and space, and the
    UTF-8 encodings of U+0085, U+00A0, U+1680, U+2000 to U+200A, U+2028,
    U+2029, U+202F, U+205F and U+3000. It is 0 when `s` starts with anything
    else, a newline included.
  */
  function SpaceWidth(s: Str): (w: nat)
    ensures w <= |s|
    ensures w > 0 ==> s[0] != NEWLINE && s[0] != PLUS && s[0] != MINUS && !IsDigit(s[0])
  {
    if |s| >= 1 && ((0x09 <= s[0] <= 0x0D && s[0] != NEWLINE) || s[0] == SPACE) then 1
    else if |s| >= 2 && s[0] == 0xC2 && (s[1] == 0x85 || s[1] == 0xA0) then 2
    else if |s| >= 3 && s[0] == 0xE1 && s[1] == 0x9A && s[2] == 0x80 then 3
    else if |s| >= 3 && s[0] == 0xE2 && s[1] == 0x80 &&
            (0x80 <= s[2] <= 0x8A || s[2] == 0xA8 || s[2] == 0xA9 || s[2] == 0xAF) then 3
    else if |s| >= 3 && s[0] == 0xE2 && s[1] == 0x81 && s[2] == 0x9F then 3
    else if |s| >= 3 && s[0] == 0xE3 && s[1] == 0x80 && s[2] == 0x80 then 3
    else 0
  }

  /**
    `SkipSpace` of `Sscanf`, where a newline is not white space: the text
    after the leading white space, or `None` when a newline comes before
    anything else, which fails the scan.
  */
  function SkipSpace(s: Str): (r: Option<Str>)
    ensures r.Some? ==> |r.value| <= |s| && r.value == s[|s| - |r.value|..]
    ensures r.Some? ==> SpaceWidth(r.value) == 0 && (r.value == [] || r.value[0] != NEWLINE)
    decreases |s|
  {
    if s != [] && s[0] == NEWLINE then None
    else
      var w := SpaceWidth(s);
      if w == 0 then Some(s)
      else
        var r := SkipSpace(s[w..]);
        assert r.Some? ==> s[w..][|s[w..]| - |r.value|..] == s[|s| - |r.value|..];
        r
  }

  /**
    `%d` after the white space: an optional sign and a run of decimal digits,
    anything after them ignored. No digits, or a value outside the int32
    range, leaves the token at 0.
  */
  function ParseNumber(text: Str): (t: int)
    ensures INT32_MIN <= t <= INT32_MAX
  {
    var signed := |text| > 0 && (text[0] == PLUS || text[0] == MINUS);
    var digits := LeadingDigits(if signed then text[1..] else text);
    if digits == [] then 0
    else
      var v: int := if signed && text[0] == MINUS then -(DigitsValue(digits) as int) else DigitsValue(digits);
      if INT32_MIN <= v <= INT32_MAX then v else 0
  }

  /**
    `fmt.Sscanf(text, "%d", &token)` with `token` an int32 that starts at 0:
    leading white space is skipped, then a number is read; a failed scan
    leaves the token at 0.
  */
  function ParseToken(text: Str): (t: int)
    ensures INT32_MIN <= t <= INT32_MAX
  {
    match SkipSpace(text)
    case None => 0
    case Some(rest) => ParseNumber(rest)
  }

  /** ASCII white space other than a newline. */
  predicate Blank(b: byte) {
    b == 0x09 || b == 0x0B || b == 0x0C || b == 0x0D || b == SPACE
  }

  /** Leading blanks are skipped. */
  lemma {:induction false} SkipBlanks(blanks: Str, text: Str)
    requires forall i :: 0 <= i < |blanks| ==> Blank(blanks[i])
    ensures SkipSpace(blanks + text) == SkipSpace(text)
    decreases |blanks|
  {
    if blanks != [] {
      assert (blanks + text)[1..] == blanks[1..] + text;
      SkipBlanks(blanks[1..], text);
    } else {
      assert blanks + text == text;
    }
  }

  /** Blanks before the number change nothing; a newline before it leaves the token at 0. */
  lemma ParseSkipsBlanks(blanks: Str, text: Str)
    requires forall i :: 0 <= i < |blanks| ==> Blank(blanks[i])
    ensures ParseToken(blanks + text) == ParseToken(text)
    ensures ParseToken(blanks + [NEWLINE] + text) == 0
  {
    SkipBlanks(blanks, text);
    var nl := [NEWLINE] + text;
    assert SkipSpace(nl) == None;
    SkipBlanks(blanks, nl);
    assert blanks + [NEWLINE] + text == blanks + nl;
  }

  lemma {:induction false} AllDigitsLead(s: Str)
    requires forall i :: 0 <= i < |s| ==> IsDigit(s[i])
    ensures LeadingDigits(s) == s
    decreases |s|
  {
    if s != [] {
      AllDigitsLead(s[1..]);
    }
  }

  /** Text that starts with a minus sign or a digit has no white space to skip. */
  lemma NumberNeedsNoSkip(t: Str)
    requires t != [] && (t[0] == MINUS || IsDigit(t[0]))
    ensures ParseToken(t) == ParseNumber(t)
  {
    assert SkipSpace(t) == Some(t);
  }

  /** The token text of every int32, as `%d` prints it, parses back to that int32. */
  lemma ParseDecimal(n: int)
    requires INT32_MIN <= n <= INT32_MAX
    ensures ParseToken(Decimal(n)) == n
  {
    var t := Decimal(n);
    if n < 0 {
      assert OfString("-") == [MINUS];
      assert t[0] == MINUS && t[1..] == NatText(-n);
      AllDigitsLead(NatText(-n));
    } else {
      AllDigitsLead(NatText(n));
    }
    NumberNeedsNoSkip(t);
  }

  /** A number too large for an int32 leaves the token at 0. */
  lemma ParseOverflowIsZero(n: nat)
    requires n > INT32_MAX
    ensures ParseToken(NatText(n)) == 0
  {
    AllDigitsLead(NatText(n));
    NumberNeedsNoSkip(NatText(n));
  }

  /** Text that starts with neither white space, a sign nor a digit leaves the token at 0. */
  lemma ParseNonNumericIsZero(text: Str)
    requires text == [] || (SpaceWidth(text) == 0 && text[0] != PLUS && text[0] != MINUS && !IsDigit(text[0]))
    ensures ParseToken(text) == 0
  {
  }

  /**
    The token text of a challenge reply as written: bytes 5 to `n - 2` of the
    `n` bytes received, dropping the final NUL. `None` is the run-time panic of
    `resp[5 : n-1]` when `n == 5`, whose bounds are then out of order.
  */
  function TokenTextAsWritten(resp: Str): (r: Option<Str>)
    requires |resp| >= TOKEN_OFFSET
    ensures r.None? <==> |resp| == TOKEN_OFFSET
    ensures r.Some? ==> resp == resp[..TOKEN_OFFSET] + r.value + [resp[|resp| - 1]]
  {
    if TOKEN_OFFSET <= |resp| - 1 then Some(resp[TOKEN_OFFSET..|resp| - 1]) else None
  }

  /** The token text with the five-byte reply read as carrying no token, which then parses as 0. */
  function TokenText(resp: Str): (r: Str)
    requires |resp| >= TOKEN_OFFSET
    ensures |resp| > TOKEN_OFFSET ==> TokenTextAsWritten(resp) == Some(r)
    ensures |resp| == TOKEN_OFFSET ==> r == [] && ParseToken(r) == 0
  {
    if |resp| == TOKEN_OFFSET then [] else resp[TOKEN_OFFSET..|resp| - 1]
  }

  /** A five-byte challenge reply — type and session id, no token, no NUL — makes the code as written panic. */
  lemma FiveByteChallengePanics()
    ensures TokenTextAsWritten([0x09, 0x01, 0x01, 0x01, 0x01]) == None
    ensures ParseToken(TokenText([0x09, 0x01, 0x01, 0x01, 0x01])) == 0
  {
  }

  /** A challenge reply carrying the text of `token` and a NUL yields that token. */
  lemma TokenOfReply(header: Str, token: int)
    requires |header| == TOKEN_OFFSET && INT32_MIN <= token <= INT32_MAX
    ensures ParseToken(TokenText(header + Decimal(token) + [NUL])) == token
  {
    var resp := header + Decimal(token) + [NUL];
    assert resp[TOKEN_OFFSET..|resp| - 1] == Decimal(token);
    ParseDecimal(token);
  }

  // ---------------------------------------------------------------------------
  // The key/value section

  /** `bytes.Split(data, MARKER)[0]`: the bytes before the first marker, or all of `data`. */
  function KvSection(data: Str): (r: Str)
    ensures |r| <= |data| && r == data[..|r|]
    ensures |r| < |data| ==> OccursAt(data, MARKER, |r|)
    ensures forall j :: 0 <= j < |r| ==> !OccursAt(data, MARKER, j)
  {
    match FindFrom(data, MARKER, 0)
    case Some(j) => data[..j]
    case None => data
  }

  /**
    The number of pairs the `for i := 0; i < len(kvSplit)-1; i += 2` loop takes
    starting at pair `k`: it stops when no value follows the key or at the
    first empty key.
  */
  function PairCountFrom(split: seq<Str>, k: nat): (c: nat)
    ensures k <= c && (2 * k <= |split| ==> 2 * c <= |split|)
    decreases |split| - 2 * k
  {
    if 2 * k + 1 < |split| && split[2 * k] != [] then PairCountFrom(split, k + 1) else k
  }

  function PairCount(split: seq<Str>): (c: nat)
    ensures 2 * c <= |split|
  {
    PairCountFrom(split, 0)
  }

  /** The map after the first `k` pairs: each key mapped to its value, a later pair overwriting an earlier one. */
  function Pairs(split: seq<Str>, k: nat): map<Str, Str>
    requires 2 * k <= |split|
  {
    if k == 0 then map[] else Pairs(split, k - 1)[split[2 * k - 2] := split[2 * k - 1]]
  }

  /**
    The pairs taken are the leading pairs with a non-empty key, and pairing
    stops where a key is empty or has no value after it.
  */
  lemma {:induction false} PairCountFromIs(split: seq<Str>, k: nat)
    requires 2 * k <= |split|
    requires forall j :: 0 <= j < k ==> split[2 * j] != []
    ensures k <= PairCountFrom(split, k) && 2 * PairCountFrom(split, k) <= |split|
    ensures forall j :: 0 <= j < PairCountFrom(split, k) ==> split[2 * j] != []
    ensures var c := PairCountFrom(split, k); 2 * c + 1 >= |split| || split[2 * c] == []
    decreases |split| - 2 * k
  {
    if 2 * k + 1 < |split| && split[2 * k] != [] {
      PairCountFromIs(split, k + 1);
    }
  }

  lemma PairCountIs(split: seq<Str>)
    ensures 2 * PairCount(split) <= |split|
    ensures forall j :: 0 <= j < PairCount(split) ==> split[2 * j] != []
    ensures 2 * PairCount(split) + 1 >= |split| || split[2 * PairCount(split)] == []
  {
    PairCountFromIs(split, 0);
  }

  /**
    The loop that fills `kvPairs`: keys at even positions, each followed by its
    value, until a key is empty or no value follows.
  */
  method PairKeyValues(split: seq<Str>) returns (kv: map<Str, Str>)
    ensures kv == Pairs(split, PairCount(split))
  {
    kv := map[];
    var i := 0;
    PairCountFromIs(split, 0);
    while i < |split| - 1
      invariant i % 2 == 0 && 0 <= i <= |split|
      invariant PairCountFrom(split, i / 2) == PairCount(split)
      invariant kv == Pairs(split, i / 2)
      decreases |split| - i
    {
      var key := split[i];
      if key == [] {
        break;
      }
      kv := kv[key := split[i + 1]];
      i := i + 2;
    }
  }

  /** Every key in the map came from an even position among the pairs taken, and every such key is in the map. */
  lemma {:induction false} PairsKeys(split: seq<Str>, k: nat)
    requires 2 * k <= |split|
    ensures forall key :: key in Pairs(split, k) <==> exists j :: 0 <= j < k && split[2 * j] == key
    decreases k
  {
    if k > 0 {
      PairsKeys(split, k - 1);
      forall key | key in Pairs(split, k)
        ensures exists j :: 0 <= j < k && split[2 * j] == key
      {
        if key != split[2 * k - 2] {
          assert key in Pairs(split, k - 1);
          var j :| 0 <= j < k - 1 && split[2 * j] == key;
        } else {
          assert split[2 * (k - 1)] == key;
        }
      }
    }
  }

  /** A repeated key keeps the value of its last pair. */
  lemma {:induction false} PairsLastWins(split: seq<Str>, k: nat, j: nat)
    requires 2 * k <= |split| && j < k
    requires forall m :: j < m < k ==> split[2 * m] != split[2 * j]
    ensures split[2 * j] in Pairs(split, k) && Pairs(split, k)[split[2 * j]] == split[2 * j + 1]
    decreases k
  {
    if j < k - 1 {
      assert split[2 * (k - 1)] != split[2 * j];
      PairsLastWins(split, k - 1, j);
    }
  }

  /** The map `QueryFullStat` returns: no key is empty, and each key holds the value of its last pair. */
  lemma KeyValueSection(split: seq<Str>)
    ensures forall key :: key in Pairs(split, PairCount(split)) ==> key != []
    ensures forall key :: key in Pairs(split, PairCount(split)) <==>
              exists j :: 0 <= j < PairCount(split) && split[2 * j] == key
  {
    PairCountIs(split);
    PairsKeys(split, PairCount(split));
  }

  /** The shape of a reply's section: three pairs and the empty part after the final NUL, which has no value and is ignored. */
  lemma ThreePairsAndTrailer(k1: Str, v1: Str, k2: Str, v2: Str, k3: Str, v3: Str)
    requires k1 != [] && k2 != [] && k3 != []
    ensures var split := [k1, v1, k2, v2, k3, v3, []];
            PairCount(split) == 3 && Pairs(split, 3) == map[k1 := v1, k2 := v2, k3 := v3]
  {
    var split := [k1, v1, k2, v2, k3, v3, []];
    assert PairCountFrom(split, 3) == 3;
    assert PairCountFrom(split, 2) == 3;
    assert PairCountFrom(split, 1) == 3;
    assert Pairs(split, 1) == map[k1 := v1];
    assert Pairs(split, 2) == map[k1 := v1][k2 := v2];
  }

  /** An empty key ends the pairing: the pairs after it are not read. */
  lemma EmptyKeyStops(k1: Str, v1: Str, v2: Str, k3: Str, v3: Str)
    requires k1 != []
    ensures var split := [k1, v1, [], v2, k3, v3];
            PairCount(split) == 1 && Pairs(split, 1) == map[k1 := v1]
  {
    var split := [k1, v1, [], v2, k3, v3];
    assert PairCountFrom(split, 1) == 1;
  }

  // ---------------------------------------------------------------------------
  // Plugins

  /** `plugins`: the second `:`-separated field of the `plugins` value split on `;`, or no plugins. */
  function PluginList(kv: map<Str, Str>): seq<Str> {
    if PLUGINS_KEY in kv then
      var parts := SplitOn(kv[PLUGINS_KEY], COLON);
      if |parts| > 1 then SplitOn(parts[1], SEMICOLON) else []
    else []
  }

  /** Splitting text that holds no separator gives the text itself. */
  lemma {:induction false} SplitNone(s: Str, sep: byte)
    requires sep !in s
    ensures SplitOn(s, sep) == [s]
    decreases |s|
  {
    if s != [] {
      SplitNone(s[1..], sep);
      assert s == [s[0]] + s[1..];
    }
  }

  /** Splitting at a first separator: the text before it, then the parts of the rest. */
  lemma {:induction false} SplitFirst(a: Str, sep: byte, b: Str)
    requires sep !in a
    ensures SplitOn(a + [sep] + b, sep) == [a] + SplitOn(b, sep)
    decreases |a|
  {
    if a == [] {
      assert ([] + [sep] + b)[1..] == b;
    } else {
      var s := a + [sep] + b;
      assert s[0] == a[0] && s[1..] == a[1..] + [sep] + b;
      SplitFirst(a[1..], sep, b);
      assert a == [a[0]] + a[1..];
    }
  }

  /** A `plugins` value without `:` gives no plugins. */
  lemma NoColonNoPlugins(kv: map<Str, Str>)
    requires PLUGINS_KEY in kv && COLON !in kv[PLUGINS_KEY]
    ensures PluginList(kv) == []
  {
    SplitNone(kv[PLUGINS_KEY], COLON);
  }

  /**
    For a `plugins` value `software:list` or `software:list:rest`, the plugins
    are the `;`-separated parts of `list`, untrimmed: joined with `;` they give
    `list` back, and no part holds a `;`.
  */
  lemma PluginsBetweenColons(kv: map<Str, Str>, software: Str, list: Str, rest: Str)
    requires PLUGINS_KEY in kv && kv[PLUGINS_KEY] == software + [COLON] + list + rest
    requires COLON !in software && COLON !in list
    requires rest == [] || rest[0] == COLON
    ensures |PluginList(kv)| >= 1 && JoinWith(PluginList(kv), SEMICOLON) == list
    ensures forall i :: 0 <= i < |PluginList(kv)| ==> SEMICOLON !in PluginList(kv)[i]
  {
    var value := kv[PLUGINS_KEY];
    assert value == software + [COLON] + (list + rest);
    SplitFirst(software, COLON, list + rest);
    if rest == [] {
      assert list + rest == list;
      SplitNone(list, COLON);
    } else {
      assert list + rest == list + [COLON] + rest[1..];
      SplitFirst(list, COLON, rest[1..]);
    }
    assert SplitOn(value, COLON)[1] == list;
    SplitJoin(list, SEMICOLON);
  }

  // ---------------------------------------------------------------------------
  // QueryFullStat

  /** What the parsing of a full-stat reply of at least 11 bytes yields. */
  function StatOf(resp: Str): QueryOutcome
    requires |resp| >= STAT_OFFSET
  {
    var split := SplitOn(KvSection(resp[STAT_OFFSET..]), NUL);
    var kv := Pairs(split, PairCount(split));
    Stat(kv, PluginList(kv))
  }

  /** What `QueryFullStat` returns against `peer`, a five-byte challenge reply read as token 0. */
  function QueryOf(peer: UdpPeer): QueryOutcome {
    if !peer.dialable then Failed(DialFailed)
    else if !peer.acceptsWrites then Failed(WriteFailed)
    else if peer.challengeReply.None? then Failed(ReadFailed)
    else if |Received(peer.challengeReply.value)| < TOKEN_OFFSET then Silent
    else if peer.statReply.None? then Failed(ReadFailed)
    else if |Received(peer.statReply.value)| < STAT_OFFSET then Silent
    else StatOf(Received(peer.statReply.value))
  }

  /** The token `QueryFullStat` sends back, from a challenge reply of at least five bytes. */
  function TokenOf(resp: Str): int
    requires |resp| >= TOKEN_OFFSET
  {
    ParseToken(TokenText(resp))
  }

  /** The datagrams that reach the server: the challenge, then the full-stat request if a token came back. */
  function DatagramsOf(peer: UdpPeer): seq<Str> {
    if !peer.dialable || !peer.acceptsWrites then []
    else if peer.challengeReply.None? || |Received(peer.challengeReply.value)| < TOKEN_OFFSET then [ChallengeDatagram()]
    else [ChallengeDatagram(), FullStatDatagram(TokenOf(Received(peer.challengeReply.value)))]
  }

  /** Writes the challenge request into the empty `payload`. */
  method WriteChallenge(payload: Writer)
    requires payload.written == [] && payload.room.None?
    modifies payload
    ensures payload.written == ChallengeDatagram() && payload.room.None?
  {
    var e1 := payload.Write([0xFE, 0xFD, 0x09]);
    var e2 := payload.Write(BE32(SESSION_ID));
  }

  /** Empties the reused `payload` and writes the full-stat request into it. */
  method WriteFullStat(payload: Writer, token: int)
    requires payload.room.None?
    modifies payload
    ensures payload.written == FullStatDatagram(token) && payload.room.None?
  {
    payload.Reset();
    var e1 := payload.Write([0xFE, 0xFD, 0x00]);
    var e2 := payload.Write(BE32(SESSION_ID));
    var e3 := payload.Write(BE32(token));
    var e4 := payload.Write([0x00, 0x00, 0x00, 0x00]);
  }

  /** The parsing of a full-stat reply: the key/value section, its pairs and the plugins. */
  method ParseStat(resp: Str) returns (outcome: QueryOutcome)
    requires |resp| >= STAT_OFFSET
    ensures outcome == StatOf(resp)
  {
    var parts := KvSection(resp[STAT_OFFSET..]);
    var kvSplit := SplitOn(parts, NUL);
    var kvPairs := PairKeyValues(kvSplit);
    var plugins := PluginList(kvPairs);
    outcome := Stat(kvPairs, plugins);
  }

  /**
    `QueryFullStat`: the challenge exchange, the full-stat exchange and the
    parsing of the key/value section, with the datagrams built in one reused
    buffer.
  */
  method QueryFullStat(peer: UdpPeer) returns (outcome: QueryOutcome, sent: seq<Str>)
    ensures outcome == QueryOf(peer)
    ensures sent == DatagramsOf(peer)
  {
    if !peer.dialable {
      return Failed(DialFailed), [];
    }
    var payload := new Writer.Buffer();
    WriteChallenge(payload);
    if !peer.acceptsWrites {
      return Failed(WriteFailed), [];
    }
    sent := [payload.written];
    if peer.challengeReply.None? {
      return Failed(ReadFailed), sent;
    }
    var resp := Received(peer.challengeReply.value);
    if |resp| < TOKEN_OFFSET {
      return Silent, sent;
    }
    var token := ParseToken(TokenText(resp));
    WriteFullStat(payload, token);
    sent := sent + [payload.written];
    if peer.statReply.None? {
      return Failed(ReadFailed), sent;
    }
    resp := Received(peer.statReply.value);
    if |resp| < STAT_OFFSET {
      return Silent, sent;
    }
    outcome := ParseStat(resp);
  }

  /** The full-stat request carries the token of the challenge reply. */
  lemma StatRequestCarriesToken(peer: UdpPeer, header: Str, token: int)
    requires peer.dialable && peer.acceptsWrites
    requires peer.challengeReply == Some(header + Decimal(token) + [NUL])
    requires |header| == TOKEN_OFFSET && INT32_MIN <= token <= INT32_MAX
    requires |peer.challengeReply.value| <= READ_BUFFER
    ensures DatagramsOf(peer) == [ChallengeDatagram(), FullStatDatagram(token)]
  {
    TokenOfReply(header, token);
  }
}
