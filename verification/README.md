# A verified model of the in-memory cache

The cache speaks the Redis serialization protocol (RESP2) over TCP, keeps strings, lists, hashes and
sets in a sharded table with lazy expiry, a byte counter and approximate LRU eviction, and logs every
write to an append-only file. This project models these parts in Dafny and proves what they promise.

## What is modelled

**Wire format.** `Frames` gives the length of a whole frame (`Check`), its decoding (`Parse`) and its
print (`Encode`) as functions of byte strings; `Decimals` and `Utf8` give 64-bit decimals, UTF-8
well-formedness (RFC 3629, section 4) and the splitting of inline commands at Unicode white space.
`FrameLaws` holds their laws, and `TextLaws` says what they mean in code points, digits and bytes.
`FrameCodec` is the program's form: a cursor that is advanced, loops over array items, a printer that
appends to a byte vector; each method is proved against those functions.

**Streams.** `Sessions` says what a byte stream means: its frames in order and how it ends.
`Connections` is the framed connection, with a read buffer filled in chunks and a buffered writer.
`AppendLog` is the log writer and the replay at start. `Serving` is the request loop, and `Answers` what
a client sees of it.

**Store.** `Store` holds the data model and the meaning of the commands: `Act` is what a command does
to the one value it names, `EagerStep` is a flat map without expired keys, `LazyStep` is a step of the
table the program keeps. `Sharding` relates shards to that flat table. `Database` is the class with its
shards and its wrapping 64-bit counter. `Eviction` says which entries an eviction run may remove.
`Scans` and `Globs` are SCAN and the pattern matcher, and `GlobLaws` says what patterns mean in byte
values. `CommandLaws` says what the commands mean by observation: what one stores, another reads back.
`Expiry`, `Runs` and `Replay` are about whole runs. `Limits` and `Peak` are state machines of concurrent
clients.

Time is a parameter of every operation, in nanoseconds; `millis` is the access time it stores. Random
choices (the shards and keys that a sweep or an eviction step draws) are data: the step is proved for
every draw the store allows. The hash function is an arbitrary function and the iteration order of a
shard an arbitrary listing of its keys. The buffered writer has an arbitrary capacity; it holds what
fits and sends only when its buffer is full or it is flushed. The functions that parse a frame into a
command and word a refusal are parameters. Database methods return a `Reply`; `Serving.Render` turns it
into a frame, listing unordered collections in some order.

## Findings

- **The byte counter drifts.** Creating a list, hash or set never adds the base cost of its entry, but
  removing it subtracts that cost. `Database.Accounting` states the exact law; `Database.Drift` is the
  smallest run after which the counter is below zero, that is, close to 2^64.
- **Replay may rebuild a different store.** Recording and applying a write are two steps, so two
  connections that set the same key can be logged in one order and applied in the other
  (`Replay.SharedKeyDiverges`), although README.md of the repository promises that no data is lost on
  shutdown. `Replay.SameOrderWhenNeverOvertaken` says exactly when the orders agree for a key: no write of
  it is applied while one that another connection recorded earlier is pending. One writer a key, or writers
  that take turns, are two ways to have that. A DEL of several keys is one step for each, so another
  connection may come between them.
- **DEL counts expired keys** that were not yet removed: `Database.DeleteCountsExpired` sets a value,
  lets it expire and deletes it with reply 1. `Expiry.CommandIsEager` says how many are counted on top.
- **A late GET answers for an earlier time.** Its write phase judges expiry by the time of its read phase
  (src/db.rs:207-230); `Expiry.LateGetIsEager` says exactly when that shows.
- **An answer can wait for more input.** The loop flushes only when the read buffer is empty
  (src/main.rs:248), so an answer stays unsent while the rest of a partly received frame is awaited:
  `Answers.AnswerWaits` has two reads, the first with one request and the beginning of the next.
  `Serving.WaitsWithUnsentAnswer` says exactly when a wait finds an unsent answer.
- **A refusal can decode as two answers.** The name of an unknown command is quoted without escaping
  (src/cmd/mod.rs:115), so a bulk name such as FOO, CR LF, +OK splits the answer (`Answers.RefusalSplits`).
- **Answers can be lost.** At a format error, or when the peer closes inside a frame, the loop returns
  without a flush (src/main.rs:219), and what the writer holds is dropped. `Answers.AnswerLost`: one read
  with a request and then bytes that never become one, such as PING, CR LF, a dollar sign, x, CR LF.
- `Answers.ServeClient` puts the last three together: a client decodes one answer for each frame if and only
  if the connection ends cleanly or the last answer was already flushed, and every refusal is one line of
  UTF-8.
- README.md of the repository lists options and commands (NX, XX, KEEPTTL, EXISTS, LLEN and others) that
  src/cmd/mod.rs does not accept; the model follows the code. The code rejects null arrays
  (src/frame.rs:101-103).

## Model

| member | source | states |
|---|---|---|
| Decimals.ReadShow | src/frame.rs:202-206 | reading a printed 64-bit number gives it back, both extremes included |
| FrameLaws.CheckExtends | src/frame.rs:51-115 | an accepted length and a format error stay the same whatever bytes follow |
| FrameLaws.CheckStrictPrefix | src/frame.rs:51-115 | every strict prefix of an accepted frame is incomplete |
| FrameLaws.CheckExact | src/frame.rs:51-115 | the accepted bytes alone are accepted again, with the same length |
| FrameLaws.CheckParseAgree | src/frame.rs:51-187 | on a checked frame decoding consumes exactly the checked bytes or fails on UTF-8 only; whatever decodes is accepted with the same length |
| FrameLaws.ParsesWhenClean | src/frame.rs:118-187 | a checked frame decodes if and only if its text lines are UTF-8 |
| FrameLaws.ParseExact | src/frame.rs:118-187 | decoding the checked bytes alone gives what decoding the whole buffer gives |
| FrameLaws.ParsedIsPrintable | src/frame.rs:118-187 | every decoded frame, inline commands included, lies in the domain of the round trip |
| FrameLaws.RoundTrip | src/frame.rs:190-226 | decoding a printed frame followed by any bytes returns the frame and stops at its end |
| FrameLaws.ReprintReceived | src/frame.rs:118-226 | printing a received frame and decoding it again is the identity |
| FrameLaws.EncodeIsPrefixFree | src/frame.rs:190-226 | equal streams start with equal frames: no print is a prefix of another |
| TextLaws.ValidMeansScalars | src/frame.rs:178-179 | a text is valid if and only if it is the encoding of a list of Unicode scalar values |
| TextLaws.WhiteSpaceByCodePoint | src/frame.rs:181 | the white-space characters, by code point |
| TextLaws.OneWord | src/frame.rs:180-183 | a text without white space is one word, itself |
| TextLaws.GapSeparates | src/frame.rs:180-183 | white space separates: the words of both sides, one after the other |
| TextLaws.InlineDecodes | src/frame.rs:176-185 | words with spaces between them, the first starting with no type byte, decode as an array of those words |
| TextLaws.ReadMeansDigits | src/frame.rs:265-269 | a number is an optional sign and digits, has their positional value, and fits in 64 bits |
| TextLaws.ShowDigits | src/frame.rs:202-206 | numbers are printed digit by digit, with 45 in front of a negative one |
| TextLaws.PrintedBytes | src/frame.rs:190-226 | every kind of frame, byte by byte |
| TextLaws.NegativeArray | src/frame.rs:101-103 | every negative array length is refused |
| TextLaws.NegativeBulk | src/frame.rs:73-79 | of the bulk lengths that start with a minus only -1 is accepted, as the null |
| TextLaws.UnterminatedBulk | src/frame.rs:81-95 | bulk data that is not followed by CR LF is refused |
| TextLaws.BadNumbers | src/frame.rs:265-269 | a line that is no number is refused as a number and as a length |
| FrameCodec.Cursor.GetLine | src/frame.rs:251-263 | the loop finds the first CR LF, returns the bytes before it and moves past it |
| FrameCodec.Cursor.GetDecimal | src/frame.rs:265-269 | the number on the line, or which of its two errors |
| FrameCodec.CheckFrame | src/frame.rs:51-115 | the cursor-driven check moves over exactly one whole frame, or reports the same error as the function |
| FrameCodec.ParseFrame | src/frame.rs:118-187 | the cursor-driven decoder returns the frame of the function and moves to its end |
| FrameCodec.WriteToBuf | src/frame.rs:190-226 | the printer appends exactly the print of the frame |
| Sessions.FirstReadExtends | src/connection.rs:37-72 | a frame or format error is delivered as soon as its bytes are buffered; later input does not change it |
| Sessions.SessionOfPipeline | src/connection.rs:37-72 | any pipeline of printed frames is read back frame by frame, and the session goes on after it |
| Sessions.SessionOfCutPipeline | src/connection.rs:44-52 | a stream cut inside a frame yields the whole frames before it, and the cut is noticed |
| Connections.Connection.ParseBuffered | src/connection.rs:57-72 | takes one frame out of the buffer, or nothing when it is incomplete or malformed |
| Connections.Connection.ReadFrame | src/connection.rs:37-54 | the answer depends on the unread bytes alone, not on the chunks; consumed and unread bytes make up the stream; it waits only while no whole frame is buffered |
| Connections.Connection.Drain | src/connection.rs:37-54 | reading until the end yields the frames and the ending of the stream |
| Connections.ChunkingIndependence | src/connection.rs:28-63 | the same bytes cut into any two lists of reads give the same frames and the same ending |
| Connections.Connection.WriteFrameBuffered | src/connection.rs:71-75 | appends the print to what was written, whatever part the writer sends early |
| Connections.Connection.Flush | src/connection.rs:78-80 | afterwards everything written is on the wire |
| Connections.HoldsWithinCapacity | src/connection.rs:20-21 | the buffered writer never holds more than its capacity |
| AppendLog.Aof.RecordFrame | src/aof.rs:69-73 | the log holds one more print, after the earlier ones |
| AppendLog.Aof.WriterStep | src/aof.rs:43-57 | messages reach the file in order, and a flush request empties the writer's buffer |
| AppendLog.Aof.Sync | src/aof.rs:76-81 | after a sync the file is exactly the prints of all recorded frames |
| AppendLog.CrashRecovery | src/aof.rs:93-115 | a log cut after any byte holds exactly the longest prefix of whole recorded frames, and no format error |
| AppendLog.Load | src/aof.rs:84-119 | under any memory limit, replay runs the commands of exactly the frames of the file in order, counts them, and fails if and only if the file ends at a text that is not UTF-8 |
| AppendLog.Recover | src/aof.rs:84-119 | under any memory limit, loading a log cut after any byte succeeds and runs exactly the commands of its longest prefix of whole frames |
| Globs.GlobMatch | src/db.rs:1077-1161 | the one-star loop ends and accepts exactly the language of the recursive matcher over the pattern's tokens |
| Globs.LastStarIsEnough | src/db.rs:1084-1087 | forgetting an earlier star loses no match: if the rest from the later star fails, no later start of the earlier one helps |
| Globs.NoLaterStart | src/db.rs:1156-1160 | at the end of the text no backtracking can help |
| Globs.MatchClass | src/db.rs:1091-1122 | the class loop decides membership, closedness and the end of a class |
| Globs.StarMatchesAll | src/db.rs:957 | the shortcut for the pattern of one star agrees with the matcher |
| GlobLaws.PatternMeans | src/db.rs:1077-1161 | a pattern printed from stars, single bytes, escapes and classes accepts exactly the texts they describe |
| GlobLaws.ConcatMeans | src/db.rs:1077-1161 | the language of a concatenation is the concatenation of the languages |
| GlobLaws.PlainText | src/db.rs:1148-1151 | a pattern without 42, 63, 91 and 92 accepts exactly itself |
| GlobLaws.SingleAndEscaped | src/db.rs:1088-1143 | 63 accepts every one-byte text, 92 takes the next byte as it is, 42 accepts every text |
| GlobLaws.ClassOfBytes | src/db.rs:1091-1123 | a class accepts exactly the bytes that stand in it |
| GlobLaws.ClassOfOtherBytes | src/db.rs:1094-1123 | with 94 or 33 in front it accepts exactly the other bytes |
| GlobLaws.ClassOfRange | src/db.rs:1106-1112 | a range accepts exactly the bytes from its first to its last |
| GlobLaws.HyphenAtEnd | src/db.rs:1106-1117 | a hyphen before the end of a class stands for itself |
| GlobLaws.Unfinished | src/db.rs:1120-1133 | a class that is not closed accepts nothing, or any one byte if it is negated; a trailing 92 accepts nothing |
| Store.UpsertKeepsLast | src/db.rs:494-507 | HSET keeps the last value given for a field and leaves other fields alone |
| CommandLaws.GetReadsSet | src/db.rs:180-254 | over any run, GET replies the value of the last SET of its key until its expiry, and nothing from then on |
| CommandLaws.GetReadsNothing | src/db.rs:180-231 | over any run, GET of a key that was never written replies nothing |
| CommandLaws.LpushLaw | src/db.rs:260-292 | LPUSH puts its elements in front, the last one first, position by position |
| CommandLaws.RpushLaw | src/db.rs:294-327 | RPUSH puts its elements behind, in their order, position by position |
| CommandLaws.PopLaw | src/db.rs:329-415 | LPOP takes the first element and RPOP the last; the others stay in order |
| CommandLaws.LpushThenPops | src/db.rs:260-371 | after LPUSH, LPOPs reply its elements backwards and then the old list |
| CommandLaws.RpushThenPops | src/db.rs:294-415 | after RPUSH, LPOPs reply the old list and then its elements, and RPOPs the reverse |
| CommandLaws.LrangeLaw | src/db.rs:417-466 | LRANGE replies the elements at the positions from start to stop, position by position |
| CommandLaws.LrangeReadsRpush | src/db.rs:294-466 | over any run, LRANGE 0 -1 after an RPUSH to a missing key replies its elements |
| CommandLaws.HgetReadsHset | src/db.rs:472-618 | over any run, HGET and HGETALL read back the last pair that HSET stored for a field |
| CommandLaws.HsetLaw | src/db.rs:472-513 | HSET stores its pairs and leaves other fields alone |
| CommandLaws.HdelLaw | src/db.rs:548-587 | HDEL removes the named fields and no other |
| CommandLaws.SismemberReadsSadd | src/db.rs:622-760 | over any run, SISMEMBER and SMEMBERS read back what SADD added to what was there |
| CommandLaws.SremLaw | src/db.rs:686-725 | SREM removes the named members and no other |
| CommandLaws.ExpireLaw | src/db.rs:780-799 | EXPIRE keeps a visible value for the given time and no longer; where there is none it replies 0 |
| CommandLaws.ExpireCountsDown | src/db.rs:780-845 | over any run, after EXPIRE the value is visible for the given time, and TTL and PTTL count it down in whole seconds and milliseconds |
| CommandLaws.TtlLaw | src/db.rs:802-845 | TTL and PTTL in whole seconds and milliseconds, -1 without expiry, -2 without a value |
| CommandLaws.OtherKinds | src/db.rs:196-199 | a command refuses exactly the visible values of other kinds, and then nothing visible changes |
| CommandLaws.AccessTimes | src/db.rs:191-195 | which commands refresh the access time of an entry |
| CommandLaws.ReadsProtect | src/db.rs:897-934 | a key that was just read is not evicted while a draw meets an entry accessed before |
| CommandLaws.ExpiredEntries | src/db.rs:207-230 | which commands remove an expired entry they come across, and which step over it |
| CommandLaws.RecordedWhenItCanChange | src/cmd/mod.rs:120-135 | a command on one key is recorded exactly if there is a value it changes |
| CommandLaws.KeylessLaw | src/cmd/mod.rs:138-162 | PING, ECHO, DEL and KEYS: their replies and what is left, key by key |
| CommandLaws.SweepRemoves | src/db.rs:875-891 | a sweep removes exactly the noted keys that are expired |
| CommandLaws.NothingEmptyIsStored | src/db.rs:329-725 | no stored list, set or hash is empty |
| CommandLaws.SizesInNumbers | src/db.rs:48-73 | the sizes of entries, element by element, in numbers |
| CommandLaws.UnchargedInNumbers | src/db.rs:276-278 | the creation of a list, hash or set leaves the key length and 64 bytes uncharged |
| Sharding.FlatInsert | src/db.rs:156-160 | inserting into the shard of a key inserts into the flat table and keeps each key in its own shard |
| Sharding.FlatRemove | src/db.rs:156-160 | removing from the shard of a key removes from the flat table |
| Database.Db.GetShared | src/db.rs:180-205 | the read-lock phase of GET answers from the visible value, or finds an expired entry and changes nothing |
| Database.Db.GetExclusive | src/db.rs:207-230 | the write-lock phase removes an entry expired at the earlier time, counts it once, and answers from the visible value |
| Database.Db.Push | src/db.rs:260-327 | LPUSH and RPUSH refine the list semantics; every byte but the base cost of a new list is charged |
| Database.Db.Pop | src/db.rs:329-415 | LPOP and RPOP refine the list semantics; an emptied list is removed; an expired entry is counted once |
| Database.Db.Lrange | src/db.rs:417-466 | the index arithmetic yields the range from start to stop, negative indices counting from the end |
| Database.Db.Hset | src/db.rs:472-513 | stores the pairs and replies the number of new fields, duplicates counted once |
| Database.Db.Hdel | src/db.rs:548-587 | removes the fields and replies how many were there; an emptied hash is removed |
| Database.Db.Sadd | src/db.rs:622-656 | adds the members and replies the number of new ones, duplicates counted once |
| Database.Db.Srem | src/db.rs:686-725 | removes the members and replies how many were there; an emptied set is removed |
| Database.Db.Del | src/db.rs:765-777 | removes the listed keys and replies how many were stored, expired ones included |
| Database.Db.Expire | src/db.rs:780-799 | times a visible value and removes an expired one |
| Database.Db.Ttl | src/db.rs:802-845 | the remaining time, -1 without expiry, -2 without visible value |
| Database.Db.KeysMatching | src/db.rs:955-973 | every unexpired key in the language of the pattern, once |
| Database.Db.PurgeSample | src/db.rs:848-873 | on any draws from one shard, as many as the sample size or the shard allows, the read phase notes exactly the drawn keys whose entries are expired, and counts all draws |
| Database.Db.PurgeRemove | src/db.rs:875-891 | the write phase, on any later store, removes exactly the noted keys still expired, each counted and subtracted once |
| Database.Db.EvictLruStep | src/db.rs:897-934 | on any draws, a step evicts if and only if one met an entry accessed before 2^64 - 1; it removes the entry of the first least recently accessed draw and nothing else |
| Database.Db.EnsureCapacity | src/db.rs:163-173 | the loop ends; every round removes the entry chosen among eight draws of a table that did not fit; it stops when the bytes fit, or does not fit and the last eight draws met no candidate |
| Eviction.EvictsOnlyWhenNeeded | src/db.rs:164-167 | when the bytes fit already, nothing is evicted |
| Eviction.EvictsOneEach | src/db.rs:926-930 | every round removes one entry and changes no other |
| Eviction.RoomIsMade | src/db.rs:163-173 | after making room the bytes fit, or the last step drew eight times and met only empty shards |
| Database.Db.SetString | src/db.rs:234-254 | SET makes room by such an eviction run, stores the value and charges the difference |
| Database.Db.Apply | src/cmd/mod.rs:138-162 | every command is a step of the flat table; only SET under a limit may first remove other entries |
| Database.Db.Scan | src/db.rs:976-1060 | one call reads the next stretch of keys in iteration order and returns those that pass |
| Database.Accounting | src/db.rs:48-73 | the counter is the size of everything stored less the base costs never charged, modulo 2^64, and exact if and only if those are a multiple of 2^64 |
| Database.Drift | src/db.rs:276-288 | pushing and popping one element leaves an empty store and a counter below zero |
| Database.DeleteCountsExpired | src/db.rs:765-777 | a DEL replies 1 for a key whose value no client can see |
| Database.SetWithinLimit | src/db.rs:163-254 | after a SET in a string-only store the counter is exact and within the limit, or the last eviction step met eight empty shards; a value that fits evicts nothing |
| Scans.Scan | src/db.rs:976-1060 | the two nested loops implement one call for every cursor, finished or stale ones included |
| Scans.ScanIsComplete | src/db.rs:976-1060 | a finished chain of calls with any counts returns every passing key exactly once |
| Scans.CursorsIncrease | src/db.rs:1053-1057 | the cursors of a chain increase strictly |
| Scans.ScanEnds | src/db.rs:992-1051 | with a fixed count c over N entries a chain has at most N / c + 1 calls |
| Scans.CursorIsPacked | src/db.rs:985-987 | a cursor is the shard times 2^32 plus the offset |
| Scans.UnfinishedReads | src/db.rs:996 | an unfinished call reads exactly as many keys as were asked for, 10 for a count of 0 |
| Scans.TypeNames | src/db.rs:1020-1026 | the names of the kinds of values, in any case |
| Scans.PassingMeans | src/db.rs:1012-1040 | a key passes if and only if its value is visible, of the wanted kind, and accepted by the pattern |
| Expiry.CommandIsEager | src/db.rs:180-799 | a command on the lazily expiring table replies and changes what is visible as on a flat map without expired keys; DEL counts the lingering keys on top |
| Expiry.LateGetIsEager | src/db.rs:180-231 | the write phase of GET, later and by the older time, changes nothing visible, and replies as the eager map at the later time unless the entry expired in between, and then as at the older one |
| Expiry.SweepIsInvisible | src/db.rs:848-894 | a sweep whose sample was read at any earlier time changes nothing visible |
| Expiry.RepliesAreEager | src/db.rs:180-894 | in every run of commands and sweeps each reply is the eager one |
| Expiry.SweepsChangeNoReply | src/db.rs:848-894 | runs with the same commands and any sweeps mixed in reply alike, DEL aside |
| Expiry.ReadsChangeNothing | src/cmd/mod.rs:120-135 | a command that is not recorded leaves value and expiry of every key as they were, at every later time |
| Expiry.CountsAddUp | src/db.rs:260-725 | over a run the counts replied for a key add up to the change of its size |
| Expiry.EventCounts | src/db.rs:293-324 | a push replies the current length of the list |
| Runs.RunEvents | src/db.rs:163-894 | any run of commands and sweeps, under any memory limit, is a run of the flat table; the accounting law holds with the base costs of all creations in it, and the counter is exact if and only if those are a multiple of 2^64 |
| Runs.UnlimitedRun | src/db.rs:164 | without a memory limit nothing is ever evicted |
| Runs.StringRun | src/db.rs:234-254 | in a run that creates no list, hash or set, under any memory limit, the counter is exact |
| Runs.ScanAll | src/db.rs:976-1060 | calling SCAN until it is finished ends and lists every passing key once |
| Replay.RunKeepsOrder | src/main.rs:236-242 | in every interleaving each connection's log is its applied steps and those it still owes; a DEL takes one step a key |
| Replay.RunFolds | src/cmd/mod.rs:138-162 | an untimed run leaves under each key what its commands, folded over that key alone, leave there |
| Replay.SameOrderWhenNeverOvertaken | src/main.rs:236-242 | once nothing is pending, log and store have the writes of a key in the same order if and only if none was applied while an earlier recorded one of another connection was pending |
| Replay.LogAgreesWithStore | src/main.rs:236-242 | then log order and applied order leave the same under the key |
| Replay.OneWriterIsNeverOvertaken | src/main.rs:236-242 | with one writer a key nothing is overtaken |
| Replay.TurnsAreNeverOvertaken | src/main.rs:236-242 | connections that write a key one after the other never overtake each other on it |
| Replay.ReplayRebuilds | src/aof.rs:84-119 | replaying the log of many interleaved connections, at other times, rebuilds the data under every key on which no write overtook another |
| Replay.SharedKeyDiverges | src/main.rs:236-242 | with two writers of one key, replay can rebuild the other value |
| Replay.Restart | src/main.rs:44-49 | after a sync, a new server that loads the file holds the data of the old one under every key, if no write overtook another |
| Replay.LoopIsPath | src/main.rs:219-251 | the trace of a request loop is a sequence of steps of one connection of that machine, which records its writes and ends with nothing pending |
| Serving.ProcessConnection | src/main.rs:219-257 | one answer per frame in order; the recorded frames are those of parsed writes; each is recorded before its command is applied, and that before the next frame; the commands run in order under any memory limit; what is unsent at every wait, and at the end: nothing after a clean one, else what the last exchange left |
| Serving.WaitsWithUnsentAnswer | src/main.rs:246-250 | a wait finds an unsent answer if and only if the last frame was a command, more input was queued when it was answered, and the writer did not send the answer early; never with an empty buffer |
| Serving.Execute | src/main.rs:236-242 | a write is applied right after its own frame was recorded, with nothing applied between, and is one step of the store under any memory limit |
| Serving.Render | src/cmd/list.rs:121-146 | each reply has its frame, unordered collections listing every member once |
| Answers.AnswerWaits | src/main.rs:246-250 | for any two requests and any cut inside the second, the answer to the first is unsent while the rest is awaited |
| Answers.AnswerLost | src/main.rs:219-257 | the answer to a request that is followed, in the same read, by bytes that never become one is never sent |
| Answers.ServeClient | src/main.rs:219-257 | what is sent, and that the client decodes one answer per frame if and only if the end is clean or nothing was left unsent, and every refusal is one line of UTF-8 |
| Answers.AnswersAreDecoded | src/frame.rs:190-226 | bytes that are sent decode to one answer per frame if and only if they are all the answers and every refusal is one line of UTF-8 |
| Answers.RenderedIsPrintable | src/cmd/list.rs:121-146 | every rendered reply survives printing |
| Answers.AnswersInBytes | src/cmd/get.rs:29-37 | the replies on the wire, byte by byte; nothing is not the empty string |
| Answers.FieldsInPairs | src/cmd/hash.rs:104-133 | a hash is answered with each field once and its value after it |
| Answers.MembersOnce | src/cmd/set_cmd.rs:102-105 | a set is answered with each member once |
| Answers.RefusedInBytes | src/main.rs:220-229 | a frame that is no command is answered with a minus sign, the refusal, CR and LF |
| Answers.UnknownCommandIsOneLine | src/cmd/mod.rs:115 | the refusal of an unknown ASCII name is one line if and only if the name is |
| Answers.RefusalSplits | src/cmd/mod.rs:115 | a name of two lines makes one answer decode as two |
| Limits.MemoryBound | src/db.rs:163-254 | with T SET-only clients, a limit and no failed eviction, the counter and the SETs in flight stay within the limit plus (T - 1) entry sizes |
| Peak.PeakNeverDecreases | src/metrics.rs:188-206 | the peak never decreases |
| Peak.PeakIsMaximum | src/metrics.rs:188-210 | the peak is 0 or a count really reached, and the maximum over the run once no connect is in progress |

## Left out

- Pub/Sub, subscriber mode, INFO, COMMAND and CLIENT: they depend on library channels or are fixed texts.
- The parsers of the single commands and the wording of refusals: parameters of the model, which assumes only that element, field, member and key lists are not empty.
- Hit and miss counters, latency samples, history and the web dashboard: statistics and text output.
- Threads of the database: a command on one key is one atomic step under the lock of its shard. GET, sweeps and SET under a limit take their lock more than once; their phases are separate members, and run one after the other in `Runs`. DEL takes a lock for each key and KEYS one for each shard: `Replay` splits a DEL into its keys, elsewhere both are one step.
- Serving.ProcessConnection: one connection has the store to itself here; many connections are the state machines of `Replay` and `Limits`.
- Replay.ReplayRebuilds: TTLs and evictions are outside it because replay runs them at other times; writes that overtook each other may still happen to leave the same data.
- Answers.UnknownCommandIsOneLine: upper case is modelled for ASCII names only.
- Answers.AnswersAreDecoded: lengths and counts fit 64 bits, as on any machine.
- Answers.ServeClient: its claim on decoding is for answers whose lengths and counts fit 64 bits, as on any machine.
- Scans.ScanIsComplete: the store is unmodified, no key expires between the calls, shards hold fewer than 2^32 entries and there are at most 2^32 of them, as the packed cursor needs.
- Limits.MemoryBound: an eviction step that finds nothing to remove lets a SET through; such runs have no bound.
- Database.SetWithinLimit: the store and the new entry together are smaller than 2^64 bytes, as on any machine.
- Sums that overflow a machine word inside `size_bytes`, times beyond the range of the clock and recursion depth on deeply nested arrays are not modelled; the counter's own wrap-around is.
- The runtime's buffered writer is modelled by its documented rule: bytes are held while they fit the buffer (8 KiB by default), what is held is sent before it would overflow, and larger writes are passed on.
- A log reopened after a torn tail and failing file or socket calls.
