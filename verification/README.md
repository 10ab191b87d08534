# Verified model of the telemetry service

This project models the parts of the telemetry service whose correctness does not fit on one screen, and proves what
their code and comments promise. Every module names the source files it models at its head. `dafny verify
dfyconfig.toml` checks the whole project.

| files | part of the service |
|---|---|
| `bytes`, `strconv` | byte strings, `Option` and `Result`; the integer conversions of Go's `strconv` |
| `spelling` | the names, marks, commands and limits of all formats, spelled out as texts |
| `json`, `number`, `skip`, `decimal`, `value`, `point`, `scanner` | the hand-written JSON scanner against the grammar of RFC 8259 (sections 2 to 7), what number literals mean as real numbers, and point validation |
| `parse` | a strict reader of that grammar, and by it exactly what the scanner accepts beyond it |
| `printer`, `response` | the hand-written JSON printer, the round trip through the scanner, and what a client reads in a response |
| `cursor`, `cursor_exact` | pagination cursors: decimal, `:`, unpadded base64url (sections 4 and 5 of RFC 4648), and exactly which texts are cursors |
| `resp`, `resp_exact`, `resp_fast`, `resp_prefix`, `resp_reader` | the RESP2 codec: generic reader and exactly what it accepts, fast array reader, commands, readers on partial streams |
| `codec` | the 65-byte member codec, its byte order, and batches in one backing array |
| `sorted`, `paging`, `walk`, `drift`, `mem`, `mem_evict`, `mem_store` | the in-memory store: sorted insertion, capping, pages, cursor walks, what changes of the store do to a cursor, whole runs with and without evictions |
| `zset`, `trim`, `trim_runs`, `trim_bound`, `redis` | the Redis store: sorted-set commands, amortized trimming by any number of instances and its exact bounds, the client code |
| `redis_walk` | cursor walks on the Redis store while calls overtake each other |
| `writers`, `readers` | what the server makes of the bytes the client code sends, what the client makes of the answers, and when two instances collide |
| `exchange`, `pool` | one connection as byte streams, and the connection pool as a concurrent protocol |
| `anomaly` | the single-pass z-score over the reals |
| `metrics` | get-or-create counters under a read-write lock |

How the model is built:

- Code that moves an index, grows a buffer or updates fields is a method with loops, or a class; each is proved against a
  function of its inputs or its old state. The theorems are lemmas about those functions.
- A JSON text is the text of a concrete syntax tree that records every byte, white space included, so "for every text of
  the grammar" is "for every valid tree". A reply of the server is the encoding of a tree of RESP2 values.
- Concurrency is a state machine: a list of events that each fire only when enabled, and theorems about every run. In the
  pool the bytes themselves move: the client writes and sends in pieces, the server parses what has reached it with the
  same reader that is proved for replies, and replies arrive in pieces.
- Integers are unbounded with the wrap-around of `int64` and `uint64` written out where the code can reach it (sequence
  and write counters, `parseIntLine`, counters of the metrics). A float is a finite decimal where it is text, a 64-bit
  pattern where it is stored, and a real where it is averaged.

What turned out not to hold, with the exact condition under which the code does meet the property:

- The size bound in the comment at `internal/store/redis.go:170-172` is `cap + 16 * batch`. With `k` instances that each
  have at most `c` calls under way, one device and no failures, the exact bound is `cap + k * (c + 14) * batch` when
  nothing is under way, and `cap + k * (17 * c - 1) * batch` at any time: never exceeded, and reached for every cap and
  batch size, by encoded points as well (`TrimBound.ExactBound`). So with one instance the comment holds at rest exactly
  for `c <= 2`, and at any time exactly for `c = 1`; with more instances it does not hold (`DocumentedBound`). If
  connections fail, or an instance writes another device as well (all share one write counter), there is no bound at all
  (`BoundedExactly`, `StarvedDevice`); what holds for any traffic is `SortedSets.SizeSinceTrim`.
- `Recent(0)` of the Redis store asks for ranks 0 to -1 and returns everything (`SortedSets.RecentIsNewest`); the
  in-memory store returns nothing.
- Redis windows find a timestamp exactly if and only if it is below 2^53, or below 2^54 and leaves remainder two when
  divided by four (`SortedSets.WindowExact`): every other one shares its double with a timestamp next to it, 2^53 itself
  included. The order of members is never affected (`OrderIsByteOrder`).
- `parseIntLine` has no overflow check, so the fast array reader agrees with the generic reader exactly when every integer
  line it passes fits in 64 bits (`RespFast.FastRefinesGeneric`, `OverflowIsAccepted`). No reply of a RESP2 server is
  affected (`FixedEncoded`).
- Members compare as (timestamp, sequence number) exactly when the timestamps have one sign (`Codec.OrderNeedsOneSign`);
  validation only lets positive ones through.
- A cursor counts the members it skips (`internal/store/paginate.go:12-14`), so it is moved by whatever becomes of them: on
  by as many places as skipped members are gone, back by as many as have come to be skipped, and the next page leaves out
  or repeats what lies between (`CursorDrift.Drift`). One insertion disturbs it exactly when the newcomer has the cursor's
  timestamp and sorts before the last member emitted (`Walks.OneAppend`); one append that also caps, exactly when that or
  the eviction of a skipped member happens and not both (`CursorDrift.OneCappedAppend`).
- One process of the in-memory store never appends such a newcomer, but on a device at its cap it evicts. A call disturbs a
  cursor exactly when it evicts a member that the cursor skips (`MemEvictions.StepDrift`). Then members that are stored
  all the time are left out, and, where the next page ends with a timestamp of which it left members out, the page after
  it serves members again: with room for three, pages of one can read 1, 3, 3, 4 and never 2 (`EvictionBreaksWalk`). Pages
  keep ascending exactly when no page overlooks members of the timestamp it ends with (`CursorDrift.OrderKept`); a walk
  with no such page ascends, and one in which no skipped member is evicted is complete as well (`WalkDuringEvictions`).
- On the Redis store calls take their numbers before their commands reach the server. Walks are stable, in every run and
  whatever the moments at which the pages are read, exactly without instances or with a single one that has one call at a
  time (`RedisWalks.WhenStable`). With two concurrent calls, or two instances, a member numbered later can land first and
  is then served twice.
- The comment at `internal/model/point.go:89-91` says that the sequence number makes members unique across concurrent
  writers. Every instance counts from its own start, so it does within one instance only: two batches are both stored
  whole exactly when no point of the one has both the value and the number of a point of the other
  (`Writers.BothStored`, `FreshInstancesCollide`).
- `Close` closes pooled connections only: all are closed afterwards exactly when no call was under way
  (`PoolProtocol.CloseReaches`). A call under way at `Close` puts its connection, still open, back into the closed pool
  when it returns, in a run for every pool capacity (`ReturnsToClosedPool`).
- The scanner accepts more than the grammar. A skipped value is one of the grammar whenever its first byte is no quote,
  bracket or brace, and for none of those three bytes always (`JsonParse.LooseFirstBytes`): a skipped string is one
  exactly when its raw bytes split into the units of section 7 (`SkippedString`), a container exactly when a strict
  reader accepts it (`SkippedExactly`). An accepted point is a JSON text exactly when its keys and the values of its
  unknown fields are (`ScannedIsJson`).
- The comment at `internal/model/fastjson.go:14-15` says that a numeric overflow is kept as infinity; `readFloat` rejects
  it, and the model follows the code. A `null` behind a value does not erase the value.

## Model

| member | source | states |
|---|---|---|
| Strconv.ParseFormat | internal/store/redis.go:289 | every int64 printed in decimal parses back to itself |
| Strconv.ParseIntExact | internal/model/fastjson.go:184 | ParseInt accepts exactly the texts of an optional sign and digits whose number fits 64 bits, with that number |
| NumberScan.ScanNumberLiteral | internal/model/fastjson.go:222-262 | the index loops return the literal and end that the specification function gives, and fail exactly when it does |
| NumberScan.ScanSound | internal/model/fastjson.go:222-262 | an accepted literal is, byte for byte, a number of RFC 8259 section 6 |
| NumberScan.ScanComplete | internal/model/fastjson.go:222-262 | every section 6 number followed by a byte that cannot extend it is accepted whole |
| NumberScan.ScanMaximal | internal/model/fastjson.go:222-262 | no other section 6 number at the same place is longer than the accepted one |
| SkipScan.PassString | internal/model/fastjson.go:288-301 | the loop stops behind the first quote that no backslash covers, or fails |
| SkipScan.PassContainer | internal/model/fastjson.go:305-327 | the depth-counting loop stops where the specification says, for any depth reached |
| SkipScan.PassValue | internal/model/fastjson.go:265-286 | the dispatch on the first byte skips to the specified end or fails |
| SkipScan.ValueNeutral | internal/model/fastjson.go:305-327 | a value of the grammar inside a container leaves the bracket count as it found it, whatever its strings and nested brackets hold |
| SkipScan.SkipValueExact | internal/model/fastjson.go:265-334 | any value of RFC 8259 embedded in any text is skipped exactly to its end |
| JsonParse.ParseExact | internal/model/fastjson.go:263-286 | the reference for skipping: a strict reader that returns a value exactly when that value of RFC 8259 stands at the index |
| JsonParse.TextInjective | internal/model/fastjson.go:263-286 | no two values of the grammar have one text, so what a skipped text means is unique |
| JsonParse.SkippedExactly | internal/model/fastjson.go:263-286 | a skipped value is a value of the grammar, exactly as long, if and only if the strict reader accepts it |
| JsonParse.LooseFirstBytes | internal/model/fastjson.go:265-286 | for a first byte, everything that is skipped is a value of the grammar if and only if the byte is no quote, brace or bracket |
| JsonParse.SkippedString | internal/model/fastjson.go:288-301 | a skipped string is a string of the grammar if and only if its raw bytes split into units of section 7 |
| JsonParse.RawExact | internal/model/fastjson.go:149-170 | raw bytes, of a key for instance, are those of a string if and only if they split into such units |
| JsonParse.ScannedIsJson | internal/model/fastjson.go:22-85 | an accepted point is a JSON text of RFC 8259 if and only if all its keys are strings and the values of its unknown fields values of the grammar |
| JsonParse.LooseKey | internal/model/fastjson.go:153-170 | a concrete point that is accepted although its key makes it no JSON text |
| Decimals.PrintedDenotes | internal/httpapi/fastresp.go:54-69 | the literal printed for a decimal denotes that decimal, in both notations |
| Decimals.MagnitudeByPoint | internal/httpapi/fastresp.go:55-59 | the choice of notation by position of the point is the comparison of magnitudes with powers of ten |
| Decimals.FloatRoundTrip | internal/model/fastjson.go:195-210 | reading the printed form of any finite decimal gives it back, signed zero included |
| Decimals.BoundedIsFinite | internal/model/point.go:47-80 | every decimal within the limits that validation compares with is in range for a float |
| DecimalValues.LiteralDenotes | internal/model/fastjson.go:195-210 | the value read from a literal is its digits scaled by its fraction and its exponent, for an exponent with no sign, a plus or a minus and for none, and its sign |
| DecimalValues.ValueInjective | internal/model/fastjson.go:195-210 | no two canonical decimals of one sign have one value, so the decimal of a literal is determined |
| DecimalValues.RangeByValue | internal/model/fastjson.go:204-208 | a literal is in range if and only if its magnitude is below 2^1024 - 2^970 |
| DecimalValues.OverflowSpelled | internal/model/fastjson.go:204-208 | that limit is (2^54 - 1) 2^970 |
| DecimalValues.AcceptedByValue | internal/model/point.go:47-80 | validation accepts exactly a positive time, -90 <= lat <= 90, -180 <= lon <= 180, three accelerations, and 0 <= battery <= 1 where there is one, as real numbers |
| DecimalValues.PrintedShape | internal/httpapi/fastresp.go:54-69 | the exponent notation is used exactly for values other than zero below 1e-6 or from 1e21 on, with one digit in front, a small e, and no superfluous zero |
| Points.ToPoint | internal/model/point.go:47-80 | succeeds exactly on the fields of the API contract, and gives a point of the contract |
| Points.ToPointOfFields | internal/model/point.go:47-80 | validation of the fields of a contract point gives exactly that point |
| Points.CornerIsValid | internal/model/point.go:47-80 | the contract has points, with latitude -90, longitude 180 and battery 1 among them |
| Scanner.EqFoldASCII | internal/model/fastjson.go:114-128 | true exactly when the key lowered in ASCII is the given name |
| Scanner.FieldName | internal/model/fastjson.go:90-110 | the lookup by length finds the field whose name equals the key up to ASCII case, or none |
| Spelling.FieldSpelled | internal/model/fastjson.go:90-128 | a key names a field if and only if it spells ts, lat, lon, battery, ax, ay or az in letters of either case |
| Spelling.Classes | internal/model/fastjson.go:130-140 | white space is space, tab, line feed and carriage return; digits are 0 to 9 |
| Scanner.PassKey | internal/model/fastjson.go:153-170 | the raw bytes between the quotes and the index past them, or failure, as specified |
| Scanner.PassInt | internal/model/fastjson.go:175-190 | null leaves the target, an integer literal within int64 sets it, anything else fails |
| Scanner.PassFloat | internal/model/fastjson.go:195-210 | null leaves the target, a number below 2^1024 - 2^970 in magnitude sets it, anything else fails |
| Scanner.PassField | internal/model/fastjson.go:66-85 | the record changes in the named field only, and an unknown key changes nothing |
| Scanner.PassMember | internal/model/fastjson.go:34-51 | one turn of the loop stores one member and stops at the byte behind its value |
| Scanner.ScanPointJSON | internal/model/fastjson.go:22-61 | the whole loop fills the record exactly as the specification scanner does, and fails exactly when it does |
| Scanner.GatherHolds | internal/model/fastjson.go:66-85 | after all members each field holds its last number, nulls passed over |
| Scanner.ScanPointOnGrammar | internal/model/fastjson.go:22-110 | on every JSON text of RFC 8259 the scanner succeeds if and only if it is an object whose known fields hold null or a number in range, and then holds each field's last number |
| Printer.AppendJSONFloat | internal/httpapi/fastresp.go:54-69 | appends the text of the printed literal, the padding of a one-digit negative exponent trimmed in place |
| Printer.AppendPointJSON | internal/httpapi/fastresp.go:31-49 | appends exactly the text of the point's JSON object |
| Printer.AppendCursor | internal/httpapi/fastresp.go:73-77 | appends the cursor as a JSON string with no escape |
| Printer.AppendRangeJSON | internal/httpapi/fastresp.go:14-29 | appends exactly the text of the response object, next_cursor null when there is none |
| Printer.RangeIsValid | internal/httpapi/fastresp.go:14-29 | the response is a JSON text of RFC 8259, for any contract points and any cursor that needs no escape, as every cursor of the service (`Cursors.CursorText`) |
| Printer.PrintParse | internal/httpapi/fastresp.go:31-69 | parsing the printed text of any contract point gives back that point, battery, signed zero and both notations included |
| Responses.PrintedKeys | internal/httpapi/fastresp.go:31-49 | a printed point names its fields in lower case in this order, the battery only when there is one |
| Responses.ResponseReadsBack | internal/httpapi/fastresp.go:14-29 | any reader of the grammar finds an object of points and next_cursor, as many items as points, each read back as its point, and null if and only if there is no cursor, otherwise exactly the cursor |
| Responses.CursorComesBack | internal/httpapi/fastresp.go:73-77 | the cursor read in the response of a page and sent back is the position behind that page |
| Cursors.Base64RoundTrip | internal/cursor/cursor.go:20 | unpadded base64url of any bytes decodes to them |
| Cursors.RoundTrip | internal/cursor/cursor.go:18-45 | decoding an encoded position gives it back for every int64 timestamp and every non-negative int skip |
| Cursors.CursorText | internal/cursor/cursor.go:18-21 | a cursor is never empty and holds only bytes a JSON string needs no escape for |
| CursorTexts.LetterSpelled | internal/cursor/cursor.go:20 | the alphabet is A-Z, a-z, 0-9, - and _ in this order |
| CursorTexts.Base64Exact | internal/cursor/cursor.go:28 | exactly the texts of letters with a whole number of bytes decode, to the bytes whose number is that of the letters, left-over bits aside |
| CursorTexts.DecodeExact | internal/cursor/cursor.go:24-45 | a text is the cursor of a position if and only if it is not empty and, line breaks taken out, base64url of its timestamp, a colon and its skip count in decimal |
| CursorTexts.BadByteRefused | internal/cursor/cursor.go:28-31 | a cursor with any other byte is refused by both stores |
| Resp.ReadEncoded | internal/resp/resp.go:42-99 | reading the encoding of any RESP2 reply gives its meaning, its error if it holds one, and otherwise stops exactly behind it |
| RespTexts.ReplyExact | internal/resp/resp.go:42-99 | the generic reader accepts exactly the spelled RESP2 replies, with numbers in any decimal spelling, gives their values and stops behind them |
| RespPrefix.ReadReplyPrefix | internal/resp/resp.go:42-99 | what the reader makes of the bytes that have arrived, short of waiting, it makes of any longer stream |
| RespPrefix.FixedArrayPrefix | internal/resp/resp.go:108-195 | the same for the fast reader |
| RespReader.EncodeCommand | internal/resp/resp.go:19-37 | the buffer is the RESP2 array of the arguments, and its length is the size computed up front |
| RespReader.CommandRoundTrip | internal/resp/resp.go:19-99 | reading an encoded command followed by anything gives exactly its arguments and leaves exactly the rest |
| RespReader.PipelineSplitsUniquely | internal/resp/resp.go:19-37 | two pipelines with one byte stream are one list of commands |
| RespReader.Reader.ReadLine | internal/resp/resp.go:198-207 | the line without its terminator and the position behind it, or the error, as specified |
| RespReader.ReadReplyFrom | internal/resp/resp.go:42-65 | the stateful reader consumes and returns what the specification reader does, errors included |
| RespReader.ReadBulkFrom | internal/resp/resp.go:86-99 | the bulk body and its terminator are consumed together, a negative length is the null bulk |
| RespReader.ReadArrayFrom | internal/resp/resp.go:67-84 | the element loop reads as many replies as the header says, up to the first error |
| RespReader.ParseIntLine | internal/resp/resp.go:162-195 | the accumulating loop computes the specified value with 64-bit wrap-around and the specified errors |
| RespReader.ReadFixedMember | internal/resp/resp.go:132-155 | one member fills its own slice and nothing before it, or the specified error |
| RespReader.ReadFixedBulkArray | internal/resp/resp.go:108-158 | the backing buffer is the members laid end to end, with the position and errors of the specification |
| RespReader.MemberSlice | internal/resp/resp.go:101-103 | member i is backing[i*size:(i+1)*size] |
| RespFast.IntLineSound | internal/resp/resp.go:162-195 | an accepted line is a signed digit line, its value taken modulo 2^64 |
| RespFast.FastRefinesGeneric | internal/resp/resp.go:101-195 | whenever the fast reader succeeds, the generic reader of the same stream returns the same members and stops at the same byte if and only if every integer line fits in 64 bits |
| RespFast.OverflowIsAccepted | internal/resp/resp.go:188-190 | a length that spells 2^64 + 1 passes for 1 in the fast reader and fails in the generic one |
| RespFast.OverflowExample | internal/resp/resp.go:188-190 | a concrete stream on which the two readers disagree |
| RespFast.FixedEncoded | internal/resp/resp.go:108-158 | on a server's reply the fast reader succeeds exactly on the null array and on arrays of bulk strings of the size, and stops exactly behind it |
| Codec.EncodeInto | internal/model/point.go:101-115 | the 65 bytes from the place on are the member, and no other byte changes |
| Codec.DecodeEncode | internal/model/point.go:101-133 | decoding a member gives its point, for every point; timestamp and sequence number are read back |
| Codec.Layout | internal/model/point.go:101-115 | timestamp and number with the highest byte first, lat, lon, ax, ay, az, battery with the lowest byte first, and the flag, each at its place |
| Codec.EncodeDecode | internal/model/point.go:101-133 | encoding what 65 bytes decode to gives them back if and only if the flag is zero or one, and the flag is set if and only if it is one |
| Codec.EncodeInjective | internal/model/point.go:89-91 | different points or sequence numbers give different members |
| Codec.MemberOrder | internal/model/point.go:89-91 | members compare by unsigned timestamp, then by sequence number |
| Codec.OrderNeedsOneSign | internal/model/point.go:103 | byte order is timestamp order if and only if both timestamps have one sign |
| Codec.EncodeMembers | internal/store/redis.go:189-197 | one backing array holds the members in order with successive numbers, and the arguments are scores and views of it |
| Codec.BatchDecodes | internal/store/redis.go:185-197 | after the batch every view decodes to its own point, and all members differ while the counter does not wrap |
| SortedMembers.InsertStrict | internal/store/mem.go:43-48 | insertion of a new member keeps strict order |
| SortedMembers.InsertAllMultiset | internal/store/mem.go:41-49 | insertion loses nothing and adds nothing else |
| SortedMembers.LastInsertAll | internal/store/mem.go:50-52 | capping before a batch makes no difference to the newest `c` after it |
| SortedMembers.NewestUnique | internal/store/mem.go:15-17 | order, origin, size and age determine the kept list |
| Paging.WindowSuffix | internal/store/mem.go:69-75 | the window from a cursor's timestamp is the rest of the whole window from the first member at or after it |
| Paging.NextSkip | internal/store/paginate.go:22-30 | the trailing run, plus the old skip when the page never left the cursor's timestamp, makes the next cursor stand right behind the page |
| Paging.PageIsNext | internal/store/mem.go:57-88 | a page from a standing cursor is the next `limit` members, or all that are left, and has a cursor exactly when more are left |
| Walks.RangeServes | internal/store/mem.go:57-88 | a cursor string handed back stands behind everything served, so `limit` fewer members are unseen |
| Walks.WalkIsExact | internal/store/mem.go:57-88 | on a fixed store following cursors ends, and the pages together hold exactly the members with from <= ts <= to, in order, each once |
| Walks.PageSizes | internal/store/paginate.go:15-19 | no page is longer than the limit |
| Walks.WalkIsSafe | internal/store/mem.go:57-88 | over the states of one writer's store, evictions included, in which none takes a member the cursor skips, a walk emits strictly ascending members inside the window, and at its end every one that stayed |
| Walks.WalkIsStable | internal/store/mem.go:57-88 | over a growing store that asks for nothing, and every member present at its start is emitted |
| Walks.OneAppend | internal/store/paginate.go:12-14 | one insertion without eviction keeps a cursor's place unless it sorts before the last emitted member of the cursor's timestamp; then the next page repeats that member |
| CursorDrift.Drift | internal/store/paginate.go:12-31 | whatever becomes of a store, the next page starts as many places behind the last member emitted as skipped members are gone, less those that have come to be skipped |
| CursorDrift.EvictionDrift | internal/store/mem.go:50-52 | with one writer a cursor keeps its place if and only if no skipped member is evicted; if d are, the next page leaves out the next d members |
| CursorDrift.OneCappedAppend | internal/store/mem.go:37-55 | one append that caps, by any writer, disturbs a cursor if and only if the newcomer slips in front of the last member emitted or a skipped member is evicted, and not both |
| CursorDrift.NextStart | internal/store/paginate.go:19-30 | the cursor handed out with any page stands right behind it, or, if the page left out members of the timestamp it ends with, as many places back |
| CursorDrift.OrderKept | internal/store/paginate.go:15-31 | every later page of one writer's store comes behind what was emitted if and only if the page overlooked nothing |
| CursorDrift.BehindOverlooksNone | internal/store/paginate.go:19-30 | a page from a cursor that stands where it should never overlooks anything |
| CursorDrift.WalkIsOrdered | internal/store/mem.go:57-88 | over the states of one writer's store, whatever is evicted, a walk in which no page overlooks anything emits strictly ascending members inside the window |
| MemStores.CappedHistory | internal/store/mem.go:37-55 | after any run of Append calls over any devices each list is the newest `cap` of its whole history |
| MemStores.HoldsNewest | internal/store/mem.go:15-17 | the same without reference to insertion: strictly sorted, from the history, as long as it can be, nothing evicted newer than anything kept |
| MemStores.BatchingIrrelevant | internal/store/mem.go:37-55 | how points were grouped into calls makes no difference to any device |
| MemStores.RunGrows | internal/store/mem.go:37-55 | appends by one process without eviction only let a device grow behind the members of each timestamp |
| MemStores.RunGood | internal/store/mem.go:37-55 | every reachable list is strictly sorted, of valid members, none numbered above the counter |
| MemStores.WalkDuringAppends | internal/store/mem.go:37-88 | in every run of one process that evicts nothing from the device, a walk whose pages are read at any moments between Append calls repeats nothing, stays in order and misses no member that was there when it began |
| MemEvictions.RunNewer | internal/store/mem.go:37-55 | between any two moments of a process, evictions included, only members numbered above the counter come in |
| MemEvictions.WalkDuringEvictions | internal/store/mem.go:37-88 | in every run of one process, evictions included: safe walks while no skipped member is evicted, ordered ones while no page overlooks anything |
| MemEvictions.StepDrift | internal/store/mem.go:37-55 | one whole Append call disturbs a cursor if and only if it evicts members the cursor skips, and the next page then leaves out as many |
| MemEvictions.EvictionBreaksWalk | internal/store/mem.go:50-52 | a run of one process on a full device in which a walk serves a member twice and never serves one that is stored throughout |
| MemStoreCode.Search | internal/store/mem.go:43-45 | the binary search finds the first member not less than the new one |
| MemStoreCode.InsertMember | internal/store/mem.go:43-48 | grow, shift and overwrite is sorted insertion |
| MemStoreCode.PageOfPoints | internal/store/paginate.go:15-31 | the backward run loop gives the specified page and cursor string, for any points |
| MemStoreCode.PagePointsIs | internal/store/paginate.go:15-31 | the page and cursor of the points of some members are the points and the cursor of the page of these members |
| MemStoreCode.ScanWindow | internal/store/mem.go:69-75 | the scan collects exactly the window, in order |
| MemStoreCode.DecodeFrom | internal/store/mem.go:78-85 | at most limit+1 points from the skipped place on |
| MemStoreCode.MemStore.Append | internal/store/mem.go:37-55 | the new state is the specified step, for any points: counter advanced, list inserted into and capped, other devices untouched |
| MemStoreCode.MemStore.Range | internal/store/mem.go:57-88 | the points and cursor of the specified page, or the cursor error |
| MemStoreCode.MemStore.Recent | internal/store/mem.go:90-109 | the newest `n` points, newest first |
| SortedSets.ScoreMonotone | internal/store/redis.go:194 | rounding timestamps to the nearest double, ties to even, never reverses them |
| SortedSets.OrderIsByteOrder | internal/store/redis.go:17-19 | (score, member) order is byte order of the members, although scores are rounded |
| SortedSets.WindowExact | internal/store/redis.go:194-210 | score windows find a timestamp exactly right if and only if it is below 2^53, or below 2^54 and leaves remainder 2 when divided by 4 |
| SortedSets.ExactAlone | internal/store/redis.go:194 | such a timestamp shares its double with no other |
| SortedSets.SharedAbove | internal/store/redis.go:194 | every timestamp from 2^54 on shares its double with another one |
| SortedSets.StoresAgree | internal/store/redis.go:199-218 | from one state, on timestamps that windows find exactly, both stores answer every range query with the same page and cursor |
| SortedSets.RecentIsNewest | internal/store/redis.go:220-223 | the reply is the newest `n`, newest first, if and only if n >= 1 or the device is empty |
| SortedSets.TrimKeepsNewest | internal/store/redis.go:175-176 | removing ranks 0 to -(cap+1) keeps exactly the newest `cap` |
| SortedSets.ZAddAllStrict | internal/store/redis.go:166-168 | a batch keeps the set sorted, adds exactly its members and grows it by no more than its size |
| SortedSets.LastZAddAll | internal/store/redis.go:170-172 | trimming earlier makes no difference to the newest `c`, even when an evicted member comes again |
| SortedSets.KeepsNewest | internal/store/redis.go:165-183 | after any commands of any instances, in any order and with any of them lost, a device holds the newest `cap` ever added and nothing that was not added |
| SortedSets.RecentSeesHistory | internal/store/redis.go:220-223 | lazy trimming is invisible to Recent(n) for 1 <= n <= cap |
| SortedSets.SizeSinceTrim | internal/store/redis.go:170-172 | a device never holds more than `cap` plus what was added to it since a trim last landed on it |
| TrimSchedule.AdvanceGood | internal/store/redis.go:173-181 | each command run keeps an instance's batches since the last trim within what its counter and pipelines allow |
| TrimSchedule.SizeBound | internal/store/redis.go:170-177 | k instances, batches of at most b, c calls at a time each: at most `cap` plus b times the sum of the allowances, in every state of every run |
| TrimSchedule.AllowanceEver | internal/store/redis.go:170-177 | in no state is an instance allowed more than 17c - 1 batches since the last trim |
| TrimSchedule.SerialBound | internal/store/redis.go:170-177 | in every state, with c = 1: at most cap + b(15k + instances between ZADD and trim), hence cap + 15kb at rest and cap + 16b for k = 1 |
| TrimBound.NeverMore | internal/store/redis.go:170-177 | k instances, batches of at most b, c calls at a time each: at most cap + k(c + 14)b when nothing is under way, and cap + k(17c - 1)b in every state |
| TrimBound.Attained | internal/store/redis.go:170-177 | orderly runs from the start reach exactly these sizes, for every cap, k, b and c, and with points encoded and numbered by their instances while these are int64 |
| TrimBound.ExactBound | internal/store/redis.go:170-177 | cap plus m batches bounds the device at rest if and only if m >= k(c + 14), and in every state if and only if m >= k(17c - 1) |
| TrimBound.DocumentedBound | internal/store/redis.go:170-172 | cap plus sixteen batches bounds the device if and only if there is no instance, or a single one with at most two calls at a time for states at rest, one for all states |
| TrimBound.BoundedExactly | internal/store/redis.go:170-177 | the device has a bound at rest at all if and only if the instances write no other device and no connection fails |
| TrimBound.StarvedDevice | internal/store/redis.go:174 | one instance writing two devices in turn never trims the first, which reaches any size one call at a time without a failure |
| RedisWalks.WhenStable | internal/store/redis.go:165-218 | in every run, whatever the moments at which pages are read, a device has only grown as a cursor can follow, and the pages of Redis ascend and miss nothing, if and only if there is no instance, or a single one with one call at a time |
| RedisWalks.WalkDuringTrims | internal/store/redis.go:165-218 | with one instance and one call at a time, failures and other devices included, walks are safe while trims land too, as long as none takes a skipped member |
| RedisWalks.CallsOvertake | internal/store/redis.go:166-179 | a run of one instance with two calls at a time in which the member numbered later arrives first |
| RedisWalks.InstancesOvertake | internal/store/redis.go:166-179 | a run of two instances in which a member with a lower number arrives after one with a higher |
| RedisWalks.OvertakenUnstable | internal/store/redis.go:199-218 | where that happens, a page before and a page after serve one member twice |
| Exchanges.ParseFinds | internal/store/redis.go:98-106 | however the command stream is cut, the server finds exactly the next command or waits |
| Exchanges.ReadOk | internal/store/redis.go:107-114 | what either reader makes of the arrived bytes is what the server's next reply says, and it then stands right behind it |
| Exchanges.SettledIsClean | internal/store/redis.go:92-95 | a connection with every reply read has no unsent, unparsed or unread byte |
| PoolProtocol.NextGood | internal/store/redis.go:61-150 | every step of every caller, the server, the network and Close keeps the invariant |
| PoolProtocol.PoolSafety | internal/store/redis.go:61-150 | in every run the pool stays within capacity, every connection is exactly one of pooled, held by one caller, or closed, and pooled connections are clean |
| PoolProtocol.RepliesMatch | internal/store/redis.go:78-116 | in every run reply j of every call that returned is the server's answer to command j of that call |
| PoolProtocol.AnswersAreReturns | internal/store/redis.go:78-116 | the answers of a run are those of the calls that returned, in order, each under the request its caller had made |
| PoolProtocol.NoReplyTwice | internal/store/redis.go:78-96 | calls that share a connection use disjoint stretches of its replies, in order |
| PoolProtocol.CloseEmpties | internal/store/redis.go:265-274 | Close closes every pooled connection and touches no caller |
| PoolProtocol.CloseReaches | internal/store/redis.go:265-274 | after Close every connection is closed if and only if no call was under way |
| PoolProtocol.ReturnsToClosedPool | internal/store/redis.go:70-76 | for every pool capacity there is a run from the start in which a call is under way at Close, returns after it, and leaves an open connection in the closed pool |
| RedisClient.ArgumentsMean | internal/store/redis.go:166-176 | the server reads each score as the timestamp, each member as its own point and number, and the trim's ranks as 0 and -(cap+1) |
| Spelling.CommandsSpelled | internal/store/redis.go:167-201 | whole commands of a write as texts: ZADD with score and member, ZREMRANGEBYRANK from 0 to -(cap + 1) |
| Spelling.QueriesSpelled | internal/store/redis.go:203-224 | whole commands of the reads as texts: ZRANGEBYSCORE with its window, skip and count, and ZREVRANGE |
| Spelling.CommandNames | internal/store/redis.go:152 | the command names, and the key of a device, t: and its id |
| RedisClient.Roundtrip | internal/store/redis.go:98-116 | all commands are sent as one pipeline, then that many replies are read, up to the first error; against a server that answers in turn, the replies are the meanings of its answers |
| RedisClient.DecodeAll | internal/store/redis.go:254-261 | the slices of the backing buffer decode to the points of the members |
| RedisClient.RedisStore.Get | internal/store/redis.go:61-68 | the oldest pooled connection leaves the pool, or the dial result is returned |
| RedisClient.RedisStore.Put | internal/store/redis.go:70-76 | the connection joins the pool if there is room and is closed otherwise |
| RedisClient.RedisStore.DoOn | internal/store/redis.go:88-95 | a connection goes back only after every reply was read, and is closed on any error |
| RedisClient.RedisStore.AppendPipeline | internal/store/redis.go:165-177 | ZADD with every point numbered in turn, and the trim exactly on each sixteenth write of the instance |
| RedisClient.RedisStore.Append | internal/store/redis.go:165-183 | that pipeline is sent, both counters advance even on failure, the count is returned exactly when every reply was read, and then the connection is pooled or closed as put does |
| RedisClient.RedisStore.ReadPoints | internal/store/redis.go:230-263 | the members of the reply, decoded in order, with the connection handling of do |
| RedisClient.RedisStore.Range | internal/store/redis.go:199-218 | the cursor error without touching a connection, or the command of the page, and the page and cursor of the points of the reply |
| RedisClient.RedisStore.Recent | internal/store/redis.go:220-223 | the command for ranks 0 to n - 1, and the points of the reply in its order |
| RedisClient.RedisStore.Close | internal/store/redis.go:265-274 | the pool is emptied and every connection that was in it is closed |
| Writers.StepIsCommand | internal/store/redis.go:165-183 | whatever runs in between, the next command the server parses from the bytes of an Append changes its sets exactly as the next step of that pipeline in the trimming protocol, and both end together |
| Writers.StartIsAppend | internal/store/redis.go:165-181 | every call of traffic with encoded points is an Append of some points, numbered from the counter of its instance, as its next write |
| Writers.KeysDiffer | internal/store/redis.go:152 | two devices have one key if and only if they are one |
| Writers.Isolated | internal/store/redis.go:165-183 | what an Append sends for one device leaves every other device as it was, batch and trim |
| Writers.Arrives | internal/store/redis.go:165-183 | after it the device holds what it held and the batch, and nothing else |
| Writers.ParseNext | internal/store/redis.go:98-106 | from any number of whole commands the server parses the next one, exactly |
| Writers.SameMember | internal/model/point.go:89-91 | two members are equal if and only if their points and their numbers are |
| Writers.BothStored | internal/model/point.go:89-91 | two batches of any two instances are both stored whole if and only if no point of the one has the value and the number of a point of the other |
| Writers.NothingDropped | internal/model/point.go:89-91 | over any history a device would hold every member added, each once, if and only if no member was added twice |
| Writers.FreshInstancesCollide | internal/model/point.go:89-91 | a batch sent once through each of two instances that have just started is kept once |
| Readers.RangeAnswered | internal/store/redis.go:199-218 | the bytes of a Range command are parsed by the server as meant, and what the client makes of the answer is the page and cursor of the sorted set |
| Readers.RecentAnswered | internal/store/redis.go:220-223 | the bytes of a Recent command are parsed as meant, and what is read are the newest `n`, newest first, if and only if n >= 1 or the device is empty |
| Anomaly.Welford | internal/anomaly/anomaly.go:40-53 | the single pass ends with the two-pass mean and sum of squared deviations, and the newest magnitude |
| Anomaly.Compute | internal/anomaly/anomaly.go:33-69 | fewer than 8 points fail; otherwise the report of the newest 256 by definition |
| Anomaly.ReportMeans | internal/anomaly/anomaly.go:54-69 | the report holds the number of magnitudes, their mean, their deviation, and by how many deviations the newest differs from the mean, zero if there is none |
| Anomaly.AnomalousExactly | internal/anomaly/anomaly.go:67 | a window is anomalous if and only if n (x - mean)^2 is more than 9 times the sum of squared deviations, to either side |
| Anomaly.MirroredScore | internal/anomaly/anomaly.go:57-67 | mirroring a window turns the sign of its score and nothing else |
| Anomaly.DropIsReached | internal/anomaly/anomaly_test.go:68-86 | the newest at rest among n - 1 of magnitude one has z < 0 and z^2 = n - 1, so z = -4 at n = 17, and is anomalous if and only if n >= 11 |
| Anomaly.MagnitudeOfAxes | internal/anomaly/anomaly.go:46 | all three axes count alike, and along one axis the magnitude is the absolute value |
| Anomaly.WelfordStep | internal/anomaly/anomaly.go:50-52 | one round takes the mean and deviations of a window to those of the window with one more magnitude |
| Anomaly.OrderIndependent | internal/anomaly/anomaly.go:41-42 | any permutation of a window has the same sum, hence mean, and the same deviations |
| Anomaly.Samuelson | internal/anomaly/anomaly.go:54-60 | n (x - mean)^2 is at most (n - 1) times the sum of squared deviations |
| Anomaly.ScoreBound | internal/anomaly/anomaly.go:57-60 | z^2 <= n - 1 for every window |
| Anomaly.AnomalousNeedsEleven | internal/anomaly/anomaly.go:67 | an anomalous window has at least 11 samples |
| Anomaly.BoundIsReached | internal/anomaly/anomaly_test.go:52-66 | one outlier reaches z^2 = n - 1 for every n, so z = 4 at n = 17, and is anomalous if and only if n >= 11 |
| Anomaly.OutlierMagnitudes | internal/anomaly/anomaly.go:46 | such a window comes from points of the model |
| Anomaly.ZeroSpread | internal/anomaly/anomaly.go:57-60 | the deviation is zero if and only if every magnitude equals the mean, and then the score is zero |
| Metrics.LocksKept | internal/metrics/metrics.go:81-88 | at every step there are several readers or one writer |
| Metrics.NextGood | internal/metrics/metrics.go:80-94 | every step of every thread keeps the invariant |
| Metrics.OneCellPerLabel | internal/metrics/metrics.go:79-94 | over all interleavings two calls of With return one cell if and only if they asked for one label, and there are as many cells as labels |
| Metrics.CellIsForGood | internal/metrics/metrics.go:79-94 | a returned cell stays its label's cell in every later state |
| Metrics.NothingLost | internal/metrics/metrics.go:57-59 | a label's cell holds the sum of all completed additions modulo 2^64, whichever threads add through whichever returned cells |
| Metrics.CellsByEvents | internal/metrics/metrics.go:57-59 | by the events alone: a label's cell holds the sum of what was added through the cells returned for the label |
| Metrics.ReturnsAsked | internal/metrics/metrics.go:79-94 | a cell is returned for the label that the thread's call of With asked for |
| Metrics.RenderBetween | internal/metrics/metrics.go:108-120 | a rendered value lies between what had completed when the scrape began and what has completed since |
| Metrics.ReadBetween | internal/metrics/metrics.go:108-120 | the value a scrape reads of a label lies between the sum of additions when the scrape began and the sum now |

## Left out

- Points.ToPoint: compares the decimal that was read, not the double nearest to it; rounding inside `strconv` is not modelled, so a text that only rounds into a range is rejected here.
- Decimals.FloatRoundTrip: takes the shortest digits of a float as given; how `strconv` finds them is not modelled.
- MemStores.WalkDuringAppends: asks that nothing is evicted from the device during the walk; `MemEvictions.WalkDuringEvictions` and `StepDrift` say what holds on a device at its cap. Both ask that the sequence counter does not wrap.
- RedisWalks.WhenStable: a call takes all its numbers at once; in the original those of concurrent calls can interleave, which only adds runs where calls are concurrent. A failed call is cut off; one that the client gave up and the server still runs counts as under way, so the next call is concurrent with it.
- TrimSchedule.SizeBound: asks for no failed calls and one device, without which there is no bound (`TrimBound.BoundedExactly`); `SortedSets.SizeSinceTrim` holds for any traffic.
- TrimBound.Attained: with encoded points the cap, the batch and the numbers of instances and calls are below 2^63; beyond that the members are any byte strings, as there are not enough of 65 bytes.
- TrimBound.BoundedExactly: the members are any byte strings, for the same reason.
- Writers.StepIsCommand: the server's sets know the two writing commands of Append; a ZADD whose scores are not the timestamps of its members is outside them.
- RedisClient.Roundtrip: the stream of a connection is fixed in advance and a write never fails; lost connections, refused writes and deadlines are the `Fail` step of `PoolProtocol`.
- RedisClient.RedisStore.Append: takes the connection that `Get` returned as a parameter, as Range and Recent do, because dialing is outside the model.
- Metrics.RenderBetween: covers the loaded values, not the exposition text around them or the order of the keys.
- RespReader.ReadBulkFrom: a bulk length near 2^63 overflows the size of the original's buffer and panics; here it is a stream that ends too early.
- RespReader.ReadArrayFrom: the original makes room for all elements before it reads the first, and may panic on a huge header; here the elements are read one by one.
- RespReader.ReadFixedBulkArray: allocation limits are not modelled; the original panics on a header that announces more bytes than a slice can have.
- Paging.NextSkip: the skip count is unbounded; a hand-made cursor with a skip near 2^63 would overflow the original's addition.
- Equality of scanner and printer with Go's `encoding/json`: the specification is RFC 8259, and the code differs from `encoding/json` on raw key bytes, a later null, and skipped containers.
- Floating-point rounding in the z-score, and overflow of squared accelerations: the computation is over the reals.
- TCP, deadlines, context errors and dial failures beyond a failed call; Redis `maxmemory` eviction, expiry and restarts.
- HTTP routing, headers, status codes, body limits and device-id validation in `internal/httpapi`; only `limit >= 1` is taken from there.
- Locking of the in-memory store: each call is one atomic step, as its mutex makes it.
- `internal/metrics/runtime.go`, help and type lines, registry lists, `internal/config`, `cmd`, deployment files and the load generator: wiring, or single-branch facts.
