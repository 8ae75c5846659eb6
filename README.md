# MinecraftCrawler core, modelled in Dafny

MinecraftCrawler finds Minecraft servers. It runs masscan over an address range and
reads back the addresses that have the game port open. It then probes each candidate:

- a Server List Ping for the status JSON;
- a Login Start, whose disconnect reason reveals a whitelist;
- the RCON port;
- the UDP query protocol, for plugins and software.

It collects the findings into `ServerDetail` records. It stores these in batches in an
SQLite table keyed by `(ip, port)`.

This project models that core, one Dafny module per Go file:

| module | Go file | what it holds |
|---|---|---|
| `Types` | `internal/protocol/types.go` | the VarInt writer and reader, and `ServerDetail` |
| `Analyzer` | `internal/protocol/analyzer.go` | the handshake frame, the status probe and its bounded VarInt reader, the Login Start probe and whitelist test, the RCON probe, and `AnalyzeServer` |
| `Query` | `internal/protocol/query.go` | the two query datagrams, token parsing, the key/value section and the plugin list |
| `Slp` | `internal/protocol/slp.go` | the earlier status probe |
| `Sqlite` | `internal/storage/sqlite.go` | the size-batched consumer and the transactional upsert |
| `Buffer` | `internal/storage/buffer.go` | the record / tick / close batching loop |
| `Masscan` | `internal/scanner/masscan.go` | masscan's arguments, output-line filtering and `ReadFromFile` |

Three support modules complete it:

- `Bytes` holds Go strings as byte sequences. It also holds `bytes.Buffer` / `io.Writer` as the `Writer` class, fixed-width integers, decimal text, split, search and lower-casing.
- `Wrappers` holds `Option` and `Result`.
- `Seqs` holds the concatenation of a sequence of batches.

Connections, processes and files are values.

- A TCP peer says:
  - whether dialling succeeds;
  - whether writes succeed;
  - what bytes the server sends.
- A UDP peer adds the two datagram replies.
- A masscan process says:
  - which start-up call fails;
  - what lines it prints;
  - how it exits.

Each probe returns its outcome together with the bytes that reached the server. Channels become sequences: records in, batches or addresses out. The clock is a function argument. JSON and base64 decoding are function arguments too.

## Model

| member | source | states |
|---|---|---|
| Bytes.Writer.Write | internal/protocol/types.go:29-35 | A write to an `io.Writer` is accepted whole or refused. A refused write leaves the contents unchanged and is reported. |
| Bytes.Writer.Reset | internal/protocol/query.go:42 | `payload.Reset()` empties the buffer. The buffer stays in-memory. |
| Bytes.BE16 | internal/protocol/analyzer.go:41 | `uint16(port)` in big-endian: two bytes whose value is the port modulo 2^16. |
| Bytes.BE32 | internal/protocol/query.go:24 | A 32-bit big-endian field: four bytes whose value is the integer modulo 2^32. |
| Bytes.LE32 | internal/protocol/analyzer.go:141-143 | A 32-bit little-endian field: four bytes whose value is the integer modulo 2^32. |
| Bytes.LE32OfByte | internal/protocol/analyzer.go:141-143 | A small value is written as its own byte followed by three zero bytes. |
| Bytes.NatText | internal/scanner/masscan.go:24 | `%d` of a natural number: decimal digits with no leading zero, denoting exactly that number. |
| Bytes.SplitJoin | internal/protocol/query.go:63 | No part returned by `bytes.Split` on one byte contains that byte. Joining the parts with it gives back the input. |
| Bytes.SplitCount | internal/protocol/query.go:74 | Splitting gives one more part than there are separators. |
| Bytes.FindFrom | internal/protocol/query.go:59 | A search returns the first occurrence of the pattern at or after the start, or reports that there is none. |
| Bytes.TrimPrefix | internal/protocol/analyzer.go:72 | `strings.TrimPrefix` removes the prefix when the string starts with it, and otherwise returns the string unchanged. |
| Types.EncodeShape | internal/protocol/types.go:28-36 | Every byte of a VarInt except the last has bit 0x80 set. The last has it clear. |
| Types.GroupsOfEncode | internal/protocol/types.go:28-36 | The low 7 bits of the bytes, least significant group first, denote the value written. |
| Types.SmallValueIsOneByte | internal/protocol/types.go:28-30 | A value below 128 is written as one byte equal to the value. |
| Types.EncodeLength | internal/protocol/types.go:28-36 | The encoding fits in k bytes exactly when the value is below 2^(7k). |
| Types.EncodeAtMostTen | internal/protocol/types.go:26-38 | A 64-bit value takes at most ten bytes. |
| Types.EncodeVectors | internal/protocol/types.go:26-38 | Known encodings: 0, 1, 127, 128 → `80 01`, 255 → `FF 01`, 2097151 → `FF FF 7F`. |
| Types.WriteVarInt | internal/protocol/types.go:26-38 | Writes the encoding byte by byte. It stops at the first refused write, returns that error and writes nothing after it. Every accepted byte reaches the writer. |
| Types.AppendVarInt | internal/protocol/types.go:26-38 | Writing to an in-memory buffer appends the whole encoding. |
| Types.NegativeValueNeverFits | internal/protocol/types.go:28-36 | For a negative value, no number of arithmetic shifts by 7 makes it fit in 7 bits, so the loop never ends. |
| Types.EncodeInt64 | internal/protocol/types.go:26-38 | The corrected encoder takes the value as a uint64. On 0 ≤ v < 2^64 it writes the same bytes as the original. |
| Types.WriteVarInt64 | internal/protocol/types.go:26-38 | The corrected writer terminates for every int and writes `EncodeInt64`, with the same stop-at-first-error rule. |
| Types.FirstStop | internal/protocol/types.go:49-51 | Finds the first byte with bit 0x80 clear at or after the position. Every earlier byte has it set. |
| Types.VarIntAt | internal/protocol/types.go:40-55 | A successful read consumes at least one byte and stays within the input. |
| Types.SafeVarIntAt | internal/protocol/analyzer.go:187-199 | The same holds for the bounded reader. |
| Types.ReadVarInt | internal/protocol/types.go:40-55 | The byte-at-a-time loop, including the 64-bit wrap of `value`, computes `VarIntAt`. |
| Types.ReadVarIntSafe | internal/protocol/analyzer.go:187-199 | The bounded loop, which gives up once the shift exceeds 35, computes `SafeVarIntAt`. |
| Types.RoundTrip | internal/protocol/types.go:26-55 | Reading back what was written, between any surrounding bytes, gives the value and ends right after the encoding. This holds for 0 ≤ v < 2^63. |
| Types.RoundTripInt64 | internal/protocol/types.go:26-55 | The same holds for every int64, negative ones included, with the corrected encoder. |
| Types.SafeRoundTrip | internal/protocol/analyzer.go:187-199 | The bounded reader reads back every value below 2^42. |
| Types.SafeAgrees | internal/protocol/analyzer.go:187-199 | Where the bounded reader succeeds, the unbounded one reads the same value and position. That value lies in [0, 2^42). |
| Types.SafeBound | internal/protocol/analyzer.go:194-196 | The bounded reader consumes at most six bytes. It fails with "too big" exactly when six continuation bytes are available. |
| Types.ReadStopsAtFirstStop | internal/protocol/types.go:49-51 | Bytes after the terminating byte do not change what is read. |
| Types.ReadFailsOnlyAtEnd | internal/protocol/types.go:43-47 | The unbounded reader fails exactly when no terminating byte is left. Its only error is end of input: it has no length bound. |
| Types.SafeVectors | internal/protocol/analyzer.go:187-199 | Known vectors of the bounded reader: 5; 300; six `FF` bytes are too long; `80` runs out of input. |
| Types.ReadsMinusOne | internal/protocol/types.go:48 | Nine `FF` bytes followed by `01` read as -1 through the 64-bit wrap. |
| Types.TakeVarInt | internal/protocol/types.go:40-55 | Reading off the front of a reply leaves a strictly shorter rest. |
| Types.TakeSafeVarInt | internal/protocol/analyzer.go:187-199 | The bounded read off a reply gives a non-negative value and a strictly shorter rest. |
| Types.TakeEncoded | internal/protocol/types.go:26-55 | Reading the encoding of v off `Encode(v) + after` gives `(v, after)`. |
| Types.TakeEncodedInt64 | internal/protocol/types.go:26-55 | The same holds for every int64 written with the corrected encoder. |
| Types.TakeSafeEncoded | internal/protocol/analyzer.go:187-199 | The same holds for the bounded reader and v < 2^42. |
| Analyzer.WriteFrame | internal/protocol/analyzer.go:44-46 | The frame is the packet prefixed by its length as a VarInt. |
| Analyzer.BuildHandshake | internal/protocol/analyzer.go:36-42 | The handshake is: id 0, the protocol, the host length and host, the port as uint16 big-endian, and the next state. The protocol is written in the corrected ten-byte uint64 form when negative (see "## Findings"). |
| Analyzer.SendHandshake | internal/protocol/analyzer.go:35-49 | Sends the framed handshake, with the protocol in the corrected form. The error is the connection's write error. |
| Analyzer.HandshakeRoundTrip | internal/protocol/analyzer.go:35-49 | A server reading the frame recovers protocol, host, port modulo 2^16 and next state, and stops exactly at the frame's end. |
| Analyzer.HandshakeBodyRoundTrip | internal/protocol/analyzer.go:36-42 | Every field of the packet is read back in order, and nothing follows the next state. |
| Analyzer.StatusRequestBytes | internal/protocol/analyzer.go:164-168 | The framed Status Request is the two bytes `01 00`. |
| Analyzer.GetServerStatus | internal/protocol/analyzer.go:158-185 | A dial failure is an error. Otherwise it sends the handshake (protocol 763, next state 1) and the Status Request. It returns the decoded status or the first failure: packet length read, packet id, bounded JSON length, short JSON, undecodable JSON. |
| Analyzer.StatusOfResponsePacket | internal/protocol/analyzer.go:171-184 | A response packet with id 0 and a JSON length that matches gives what the decoder makes of exactly those JSON bytes. |
| Analyzer.StatusRejectsOtherPacket | internal/protocol/analyzer.go:173-174 | Any int64 packet id other than 0 is an error. This includes ids that `ReadVarInt` reads as negative from ten bytes. |
| Analyzer.StatusRejectsShortJson | internal/protocol/analyzer.go:178-180 | Fewer JSON bytes than announced is an error. |
| Analyzer.StatusRejectsLongLength | internal/protocol/analyzer.go:175-176 | A JSON length of six continuation bytes is refused as too big. |
| Analyzer.BuildLoginStart | internal/protocol/analyzer.go:86-98 | Builds Login Start: id 0, the 13-byte name `GeminiCrawler`, then the UUID, the UUID field for the protocol. |
| Analyzer.LoginStartLayout | internal/protocol/analyzer.go:86-98 | Login Start reads back as id 0, length 13 and the name. From protocol 764 the UUID follows. From 759 to 763 the flag 1 and the UUID follow. Below 759 nothing follows. |
| Analyzer.ReasonBuffer | internal/protocol/analyzer.go:110-111 | The reason buffer has exactly the announced length, whatever the stream still holds, because `io.ReadFull`'s error is ignored. |
| Analyzer.LoginReply | internal/protocol/analyzer.go:104-116 | The corrected reading of the login reply. Wherever the code as written does not panic, it gives the same answer. The code as written panics when the reason length is negative or above the allocation limit of `make`. |
| Analyzer.LoginReplyPanics | internal/protocol/analyzer.go:109-110 | A Disconnect whose reason length reads as -1 makes the code as written panic. The corrected reading says not whitelisted. |
| Analyzer.LoginReplyHugeLengthPanics | internal/protocol/analyzer.go:109-110 | A reason length above 2^48 also makes the code as written panic in `make`. The corrected reading tests the bytes the stream holds. |
| Analyzer.LoginReplyOfDisconnect | internal/protocol/analyzer.go:105-115 | A Disconnect (id 0) with its reason is whitelisted exactly when the lower-cased reason mentions "whitelist" or "not on the list". |
| Analyzer.LoginReplyOfOtherPacket | internal/protocol/analyzer.go:107-108 | Any other int64 packet id means not whitelisted, in the code as written as well. This includes ids that read as negative. |
| Analyzer.ToLowerIdempotent | internal/protocol/analyzer.go:112 | Lower-casing twice is lower-casing once. |
| Analyzer.WhitelistedIgnoresCase | internal/protocol/analyzer.go:112-113 | The whitelist test does not depend on the case of the reason. |
| Analyzer.DottedCapitalIWhitelisted | internal/protocol/analyzer.go:112-113 | `strings.ToLower` lowers U+0130 to `i`, so "WHİTELIST" passes the whitelist test. |
| Analyzer.LoginProbe | internal/protocol/analyzer.go:81-119 | Dials, sends the login handshake (next state 2) and the framed Login Start. It reports a whitelist only if the connection opened, the write succeeded and the corrected reading of the reply (`LoginReply`) says so. |
| Analyzer.RconAuthPacket | internal/protocol/analyzer.go:139-145 | The RCON packet is 14 bytes: little-endian length 10, id 1, type 3, an empty payload and two NULs. |
| Analyzer.AnalyzeRcon | internal/protocol/analyzer.go:132-156 | A dial or write failure is an error. Otherwise the detail comes back with `rcon_open` set and software "RCON Service", and the bytes sent are exactly the 14-byte authentication packet. |
| Analyzer.ModsMapLastWins | internal/protocol/analyzer.go:77-79 | A mod id is a key exactly when some mod has it. Each key maps to the version listed last for it. |
| Analyzer.FoldStatus | internal/protocol/analyzer.go:65-79 | Copies the version, protocol, player counts and secure-chat flag. Sets the icon (prefix stripped, then decoded) when there is a favicon. Fills the mods map. |
| Analyzer.AnalyzeServer | internal/protocol/analyzer.go:51-130 | Port 25575 goes to the RCON probe. Otherwise a failed status is the error. Else the detail carries the status fields, the whitelist verdict of the corrected login probe, and the query's plugins and non-empty software. |
| Query.SessionIdValue | internal/protocol/query.go:21-24 | The session id `0x01010101 & 0x0F0F0F0F` is `0x01010101`, written as `01 01 01 01`. |
| Query.ChallengeDatagram | internal/protocol/query.go:22-24 | The handshake datagram is `FE FD 09 01 01 01 01`. |
| Query.FullStatDatagram | internal/protocol/query.go:42-46 | The full-stat datagram is 15 bytes: `FE FD 00`, the session id, the token as big-endian int32, and four zero bytes. |
| Query.LeadingDigits | internal/protocol/query.go:39 | The longest run of digits at the front of the text. |
| Query.SkipSpace | internal/protocol/query.go:39 | `Sscanf` skips leading white space, including the Unicode spaces. What remains is a suffix that starts with neither white space nor a newline. A newline first fails the scan. |
| Query.ParseToken | internal/protocol/query.go:38-39 | `Sscanf("%d")` into an int32 always gives a value in the int32 range. |
| Query.ParseSkipsBlanks | internal/protocol/query.go:39 | Blanks before the number do not change the token. A newline before it leaves the token 0. |
| Query.ParseDecimal | internal/protocol/query.go:39 | Every int32 written in decimal parses back to itself. |
| Query.ParseOverflowIsZero | internal/protocol/query.go:39 | A number beyond int32 leaves the token 0. |
| Query.ParseNonNumericIsZero | internal/protocol/query.go:39 | Text that starts with neither white space, a sign nor a digit leaves the token 0. |
| Query.TokenTextAsWritten | internal/protocol/query.go:37 | `resp[5:n-1]` panics exactly on a five-byte reply. Otherwise it is everything between the 5-byte header and the last byte. |
| Query.TokenText | internal/protocol/query.go:37 | The corrected token slice. It agrees with `resp[5:n-1]` wherever that slice exists, and is empty (token 0) for a five-byte reply. |
| Query.FiveByteChallengePanics | internal/protocol/query.go:32-37 | A five-byte reply passes the `n < 5` check, but the slice `resp[5:4]` panics. |
| Query.TokenOfReply | internal/protocol/query.go:36-39 | A reply made of a 5-byte header, a decimal int32 and a NUL yields that int32 as the token. |
| Query.KvSection | internal/protocol/query.go:58-61 | The key/value section is the longest prefix of the data before the first `00 01 player_ 00 00` marker. It is all of the data when the marker is absent. |
| Query.PairCountIs | internal/protocol/query.go:64-66 | The loop reads pairs while a key and its value exist and the key is non-empty. It stops at the first empty key or at the last part. |
| Query.PairKeyValues | internal/protocol/query.go:62-69 | The `i += 2` loop builds exactly the map of the pairs read. |
| Query.PairsKeys | internal/protocol/query.go:64-68 | A key is in the map exactly when it is the key of some pair read. |
| Query.PairsLastWins | internal/protocol/query.go:68 | For a repeated key, the value of its last pair wins. |
| Query.KeyValueSection | internal/protocol/query.go:64-69 | No key in the map is empty. The keys are exactly those of the pairs read. |
| Query.ThreePairsAndTrailer | internal/protocol/query.go:63-69 | Three NUL-terminated pairs give a three-entry map. The empty part after the last NUL is ignored. |
| Query.EmptyKeyStops | internal/protocol/query.go:66 | An empty key ends the loop. Later pairs are not read. |
| Query.NoColonNoPlugins | internal/protocol/query.go:74-75 | A `plugins` value without a colon gives no plugins. |
| Query.PluginsBetweenColons | internal/protocol/query.go:71-78 | The plugins are the text between the first and second colon, split on `;` and not trimmed. Joining them with `;` gives that text back. |
| Query.WriteChallenge | internal/protocol/query.go:22-24 | Writes the handshake datagram into the empty payload buffer. |
| Query.WriteFullStat | internal/protocol/query.go:42-46 | After `Reset`, the reused buffer holds exactly the full-stat datagram. |
| Query.ParseStat | internal/protocol/query.go:58-80 | Parsing a reply of at least 11 bytes gives the pairs of its key/value section and its plugin list. |
| Query.QueryFullStat | internal/protocol/query.go:13-81 | A dial, write or read failure is an error. A reply shorter than 5 (then 11) bytes returns no map, no plugins and no error. Otherwise the result is the parsed stat. The datagrams sent are the challenge and then the full-stat request carrying the token parsed from the corrected slice (`TokenText`). |
| Query.StatRequestCarriesToken | internal/protocol/query.go:37-48 | When the challenge reply carries a decimal int32 token, the second datagram carries that token. |
| Slp.LegacyStatusRequest | internal/protocol/slp.go:57-60 | The literal `01 00` Status Request equals the framed one of analyzer.go. |
| Slp.LegacyGetServerStatus | internal/protocol/slp.go:33-85 | A dial failure is an error. Otherwise it sends the same handshake (protocol 763, next state 1) and Status Request, ignoring write errors, and reads the reply as `LegacyReply`. |
| Slp.ReadLegacyReply | internal/protocol/slp.go:62-84 | The reads follow in order: packet length (an error ends it), packet id and JSON length (failed reads count as 0), then the JSON. A negative length, or one above 2^48, panics. |
| Slp.TakeAgrees | internal/protocol/slp.go:63-72 | Where the bounded reader succeeds, the unbounded reader of slp.go reads the same. Where the bounded reader runs out of input, so does the unbounded one. |
| Slp.LegacyAgrees | internal/protocol/slp.go:62-84 | Wherever slp.go panics, analyzer.go refuses the reply as too big. Wherever analyzer.go returns a status, or an error other than a failed read, slp.go returns the same. |
| Slp.NegativeJsonLengthPanics | internal/protocol/slp.go:72-73 | A JSON length that reads as -1 makes slp.go panic. analyzer.go refuses the same reply. |
| Slp.HugeJsonLengthPanics | internal/protocol/slp.go:72-73 | A JSON length above 2^48 also makes slp.go panic in `make`. |
| Sqlite.Table.Flush | internal/storage/sqlite.go:64-102 | A failing `Begin`, `Prepare` or `Commit` is returned as the error and leaves the table as it was. Otherwise every record not refused is upserted by `(ip, port)`. |
| Sqlite.UpsertedKeys | internal/storage/sqlite.go:82-100 | After the upsert, the keys are the old keys plus the keys of the records not refused. |
| Sqlite.UpsertedLastWins | internal/storage/sqlite.go:70-95 | `INSERT OR REPLACE` on the `UNIQUE(ip, port)` key (line 37): a record's row is stored unless a later accepted record has the same key. |
| Sqlite.UpsertedKeepsOthers | internal/storage/sqlite.go:82-100 | Rows whose key no accepted record has are untouched. |
| Sqlite.UpsertedTimestamps | internal/storage/sqlite.go:86-89 | A record with a zero timestamp gets the current time. No written row has a zero timestamp. A non-zero timestamp is kept. |
| Sqlite.ChunksConcat | internal/storage/sqlite.go:50-61 | The batches flushed, concatenated, are exactly the records received, in order. |
| Sqlite.ChunksSizes | internal/storage/sqlite.go:51-61 | Every batch but the last is full. The last holds 1 to `batchSize` records. |
| Sqlite.ChunksCount | internal/storage/sqlite.go:50-61 | The number of batches is the number of records divided by the batch size, rounded up. |
| Sqlite.SmallBatchSizeFlushesEach | internal/storage/sqlite.go:51-52 | With a batch size of at most 1, every record is flushed alone. |
| Sqlite.StartSQLiteManager | internal/storage/sqlite.go:47-62 | The loop flushes exactly `Batches(records, batchSize)`, in order. The table ends as those flushes leave it. |
| Sqlite.OneRecordStored | internal/storage/sqlite.go:47-102 | One record with batch size 2 is flushed on close, and the table then holds exactly its row. |
| Buffer.StartManager | internal/storage/buffer.go:11-49 | The select loop ends in the state `Run` gives for the events it observed. |
| Buffer.RunAfterDone | internal/storage/buffer.go:22-29 | Once the channel is found closed, later events change nothing. |
| Buffer.RunConserves | internal/storage/buffer.go:19-45 | The saved batches followed by the pending batch are exactly the records received, in order. After close nothing is pending. The loop has returned exactly when a close was observed. |
| Buffer.RunBatchBound | internal/storage/buffer.go:31-37 | The pending batch is always smaller than the batch size. Every saved batch holds 1 to `batchSize` records. |
| Buffer.SmallBatchSizeSavesEach | internal/storage/buffer.go:31-37 | With a batch size of at most 1, every record is saved alone at once. |
| Buffer.TickSaves | internal/storage/buffer.go:38-44 | A tick saves a non-empty pending batch and leaves an empty one alone. |
| Masscan.ArgsLayout | internal/scanner/masscan.go:22-32 | The arguments are `[ipRange, "-p", port, "--rate", rate, "--exclude 255.255.255.255", "-oJ", "-"]`. `"--excludefile", exclusions` is appended exactly when the exclusions are non-empty. |
| Masscan.StripComma | internal/scanner/masscan.go:54-56 | At most one byte is removed. |
| Masscan.StripOneComma | internal/scanner/masscan.go:54-56 | Exactly one trailing comma is removed, never two. A line without one is kept whole. |
| Masscan.ScanLines | internal/scanner/masscan.go:46-64 | The loop forwards exactly `Forwarded(lines)`, in order. |
| Masscan.ForwardedExactly | internal/scanner/masscan.go:50-63 | An address is forwarded exactly when some line meets all of these: it is not skipped (shorter than 10, or starting with `[` or `]`), it decodes after comma stripping to that address, and it lists at least one port. |
| Masscan.ForwardedBound | internal/scanner/masscan.go:59-62 | At most one address is forwarded per line. |
| Masscan.TrailingCommaIgnored | internal/scanner/masscan.go:54-56 | The comma after a result line does not change what it forwards. |
| Masscan.Run | internal/scanner/masscan.go:20-66 | Builds the arguments. A pipe or start failure is returned with nothing forwarded. Otherwise it forwards the lines' addresses and returns `Wait`'s error. |
| Masscan.ReadFromFile | internal/scanner/masscan.go:69-89 | An open or first-token failure is the error. Otherwise it forwards every decoded element and steps over mismatched ones. It never returns once an element is malformed. |
| Masscan.DecodedIpsExactly | internal/scanner/masscan.go:82-87 | An address is among the decoded ones exactly when some element decodes to it. |
| Masscan.ForwardsEveryDecoded | internal/scanner/masscan.go:82-88 | On a file without malformed elements, every decoded element's address is forwarded, whatever its ports, and nothing else is. |
| Masscan.PortlessElementForwarded | internal/scanner/masscan.go:84-85 | An element listing no ports is still forwarded from a file. |
| Masscan.MalformedElementHangs | internal/scanner/masscan.go:82-87 | After one result and a malformed element, the loop has forwarded that result and never ends. |
| Masscan.StoppingAgrees | internal/scanner/masscan.go:82-88 | The corrected reader always returns. Where the original returns, it agrees with it. Where the original hangs, it returns the same addresses and a syntax error. |

## Left out

- Sockets, dialling, deadlines and timeouts are left out. A connection is a value: whether it dials, whether it accepts writes, and its reply bytes. A write is accepted whole or refused.
- UDP write failures are one flag per peer. The model cannot say that only the second datagram's write fails.
- `encoding/json` decoding of the status payload and of masscan's lines is a function parameter. So is `base64.StdEncoding.DecodeString` of the favicon, after the prefix is stripped.
- The status record of slp.go has no `enforcesSecureChat` field. The model shares analyzer.go's record, which does.
- `GetQueryInfo`, `Database.SaveBatch` and the `BuildArguments` called by masscan's tests are not part of this model.
  - `GetQueryInfo`'s outcome is an optional input of `AnalyzeServer`.
  - The batches handed to `SaveBatch` are the output of `Buffer.StartManager`; its error is only logged.
- `time.Now`, the ticker and `log.Printf` are left out. The clock is a function argument, and ticks are events.
- `exec.Command`, the stdout pipe and bufio's line splitting are left out. masscan's output arrives as a sequence of lines.
- The file of `ReadFromFile` is a sequence of decoded elements.
- Concurrency is left out: goroutines, channel close ordering and `cmd/scan.go`'s worker pool.
- The SQLite schema and PRAGMAs, and the JSON serialisation of mods and plugins, are left out. A row stores the map and the list as they are.
- Sqlite.StartSQLiteManager: requires `batchSize >= 0`, because `make` panics on a negative capacity.
- Types.WriteVarInt: requires a non-negative value. For a negative one the Go loop never ends, which `Types.NegativeValueNeverFits` states.
- Analyzer.BuildHandshake: writes a negative protocol in the corrected ten-byte form. The code as written never finishes the handshake for it, and the model does not carry that non-termination up.
- Analyzer.SendHandshake: the same corrected handshake. A negative protocol never finishes in the code as written.
- Analyzer.LoginProbe: returns the corrected verdict. The code as written never finishes for a negative status protocol, such as -1. It panics for a reason length that reads as negative, e.g. `0B 00` then nine `FF` and `01`. It also panics for a reason length above 2^48.
- Analyzer.AnalyzeServer: returns a record where the code as written hangs or panics. This is through `LoginProbe` on the three inputs named there. `cmd/scan.go` runs it in worker goroutines with no `recover`, so such a panic ends the whole crawler.
- Query.QueryFullStat: on the five-byte challenge reply `09 01 01 01 01` it sends the full-stat request with token 0 and returns that outcome. The code as written panics at `resp[5:4]`.
- Analyzer.LoginReply, Slp.LegacyReply: a length up to 2^48 but beyond the memory available is an out-of-memory crash in Go, which is not modelled. Also, 2^48 is `make`'s limit on 64-bit Linux; other platforms differ.
- Bytes.ToLower: Go also rewrites the other non-ASCII runes and invalid UTF-8 bytes, always into non-ASCII bytes. The model keeps those bytes as they are. This does not change any search for ASCII text, such as the whitelist test.

## Findings

| source | as written | input that shows it | evidently intended | confidence | as-written member | corrected member |
|---|---|---|---|---|---|---|
| internal/protocol/query.go:32-37 | a 5-byte challenge reply passes `n < 5`, then `resp[5:n-1]` is `resp[5:4]`, which panics | the reply `09 01 01 01 01` | an empty token, parsed as 0 | not executed | Query.FiveByteChallengePanics | Query.TokenText |
| internal/protocol/analyzer.go:109-110 | the reason length comes from the unbounded `ReadVarInt`, and `make([]byte, rLen)` panics when it is negative or above 2^48 | `0B 00` followed by nine `FF` and `01` | a negative length means not whitelisted | not executed | Analyzer.LoginReplyPanics | Analyzer.LoginReply |
| internal/protocol/types.go:28-36 | for a negative value, `value & ^0x7F` is never 0 and `value >>= 7` sinks to -1, so the loop never ends. A server announcing a negative protocol hangs the login handshake (analyzer.go:84) | status protocol -1 | the value written as a uint64 (ten bytes), which this code's 64-bit `ReadVarInt` reads back as itself. The protocol's 32-bit VarInt would write `FF FF FF FF 0F` instead, which this reader does not read back as -1. | not executed | Types.NegativeValueNeverFits | Types.RoundTripInt64 |
| internal/protocol/slp.go:72-73 | the JSON length comes from the unbounded `ReadVarInt` with its error discarded, and `make([]byte, jsonLen)` panics when it is negative or above 2^48 | `0C 00` followed by nine `FF` and `01` | refuse the reply, as the bounded reader of analyzer.go does | not executed | Slp.NegativeJsonLengthPanics | Slp.LegacyAgrees |
| internal/scanner/masscan.go:82-87 | after a syntax error, `json.Decoder.Decode` returns the same error on every call without moving on. `More` still sees the element, so the loop never ends | the file `[{"ip":"1.2.3.4"}, {"ip": }]` | stop at the error and return it | not executed; depends on the decoder keeping its error | Masscan.MalformedElementHangs | Masscan.StoppingAgrees |

### Where the code and its description differ

- The VarInt readers have no five-byte bound. `ReadVarInt` reads any number of continuation bytes. `ReadVarIntSafe` accepts up to six bytes, refusing only once the shift passes 35.
- Plugin names are not trimmed. The text after `Software:` keeps its leading space, and every name keeps the spaces around it.
- masscan's broadcast exclusion is one argument, `"--exclude 255.255.255.255"`.
  - The masscan tests expect a different list, from a `BuildArguments` function that is not part of this model.
  - That list places `--exclude` and a longer range in two arguments, and has no broadcast exclusion in the first two cases.
  - The model follows `Run`.
- `Flush` stores neither the MOTD, the icon nor `rcon_open`.
