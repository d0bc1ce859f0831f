# ToyRedis, verified

A Dafny model of ToyRedis: the incremental RESP2 parser and the serializer, the typed store, the
command dispatcher, and the receive loop that joins them. The protocol is the public *Redis
serialization protocol specification*, version RESP2, sections "Simple strings", "Simple errors",
"Integers", "Bulk strings" and "Arrays".

## How it is laid out

The parser, the printer, the store, the handlers, `dispatch` and the receive loop come twice: as a
function that says what is computed, and as the imperative code that computes it, with a cursor, loops,
and fields updated in place. The method's `ensures` ties the second to the first, and the laws are
proved about the first, so they hold of both.

| files | what they hold |
|---|---|
| `Bytes`, `Decimal` | byte strings; signed 64-bit integers, `to_string` and `stoll` on bytes |
| `RespValue`, `Parser`, `Serializer` | RESP values; what parser and printer compute; the parser's general laws |
| `Protocol`, `Grammar`, `RoundTrips` | the protocol in its own bytes, which the parser and the printer meet exactly; printing and parsing undo each other |
| `Numerals`, `Spellings`, `Unfinished` | which bytes are printed back unchanged; which unfinished buffers can still be completed |
| `RespParser` | the parser over a buffer and a cursor |
| `Streams` | one client's stream cut into chunks |
| `SortedSets`, `Store`, `Database` | the (score, member) order and the ranking; each operation on one slot; the store updated in place |
| `Commands`, `Dispatcher` | commands, arity and conversions; the dispatcher updated in place |
| `Requests`, `Answers`, `CollectionAnswers`, `HashAnswers`, `SortedSetAnswers` | what each of the 42 commands answers and leaves stored, request by request |
| `DispatchLaws`, `Runs`, `Tallies`, `Contents` | laws of every command; laws of whole histories |
| `ServerRuns`, `ClientViews`, `RedisServer` | many clients over one database as a state machine; what each client reads back; the server object |

`Protocol` and the answers are written without the names of what they judge: the protocol in numbered
bytes, the order of a listing in bytes and scores, a request as an array of bulk strings whose first is a
name in any letter case, an answer as values in order. So they also say what the tables, constants and
conversions behind `dispatch` must be.

A byte is a number below 256. `i64` is a type whose every operation is checked to stay in range, so
"nothing overflows" is part of verifying `IncrBy`, `Clamp`, `LRange`, `LIndex` and `ZRange`. Sizes are
natural numbers; where the source casts a size to `long long` the model casts with wrap-around.

A sorted set is a member-to-score map with a strictly sorted sequence beside it. The specification of
ZADD and ZREM does not touch that sequence: it sorts the new map again (`Ranks.Ranking`). That the
in-place insertions and removals give the same sequence is what the methods prove.

## What is true, where a simpler claim is false

Each entry names a lemma that exhibits the failure and the lemma that says exactly when the simpler
claim holds.

- Printing what was parsed need not give the same bytes: `stoll` reads `:+5` and `:12abc`
  (`PlusSignIsLost`, `JunkIsLost`). The bytes come back exactly when every number among them is spelled
  canonically (`PrintedBackIffSpelled`). Otherwise a form comes back that parses to the same value and
  is never longer (`Canonicalisation`, `CanonicalShortest`).
- INCOMPLETE does not promise that more bytes can help: nothing completes `+a\rb` or
  `$-2` (`SpoiltStringWaits`, `NegativeLengthWaits`). A buffer can still be completed exactly when it is
  open, a condition on the bytes already there (`CompletableIffOpen`).
- The serializer prints an empty error as `-\r\n` (tests/test_resp_serializer.cpp:59) and the parser
  refuses it (src/RespParser.cpp:41; `EmptyErrorIsRefused`). Exactly the well-formed values survive the
  wire (`SurvivesIffWellFormed`).
- The reply to an unknown command echoes its name, so one with a CR or LF in it is not read back
  (`LineBreakInName`). Every other reply is, and only those are (`ReplyFidelity`).
- One `parse_one` per `recv` means that pipelined commands lag (`TwoInOneChunkLag`). The number
  dispatched has a closed form (`DispatchedClosedForm`), and nothing lags exactly when since every
  earlier moment no more values became complete than chunks arrived (`NothingLagsIff`).
- DECRBY refuses the smallest integer even when the true difference fits, as for a counter at -1
  (`DecrByMinimumRefused`). It is exact unless the decrement is the smallest integer and the counter is
  negative (`DecrByExact`).
- The store's operations would store an empty collection if a push, HSET or SADD came without elements.
  They keep the store sound exactly when there is an element or the key is present (`ApplySoundIff`);
  the dispatcher's arity checks see to that (`ParsedIsLegal`).
- A protocol error is not confined to the connection it came on: the `break` at src/RedisServer.cpp:138
  leaves only the switch, the loop looks the closed connection up again, and `at` throws. One byte from
  one client ends the server for all (`OneBadByteEndsAll`). The server lives exactly as long as no
  connected client's own stream has failed (`AliveIff`), and a stream fails exactly at a chunk that
  breaks it: an error lies in the bytes so far, and the values before it are few enough to have been
  dispatched already (`FailsIff`, `AliveIffUnbroken`). Statements about runs go up to and including that
  point.

## Model

| member | source | states |
|---|---|---|
| Decimal.StollOfIntStr | src/RespSerializer.cpp:32-39 | for every 64-bit integer, reading its printed form gives the integer back and consumes every byte |
| Decimal.StollReads | src/RespParser.cpp:70-76 | spaces, an optional sign, digits and trailing junk read as the signed value of the digits, or as out of range |
| Decimal.StollRefuses | src/RespParser.cpp:72-76 | a text is refused exactly when it has no such decomposition |
| Decimal.IntStrShortest | src/RespSerializer.cpp:34 | the printed form of a number is never longer than the text it was read from |
| Parser.Parse | src/RespParser.cpp:178-197 | COMPLETE moves the cursor by at least three bytes and never past the end, which ends the mutual recursion |
| Parser.ParseYields | src/RespParser.cpp:133-197 | every value produced is well-formed and has at most a third as many nodes as bytes consumed, whatever array lengths were announced |
| Parser.ParseLocal | src/RespParser.cpp:11-197 | COMPLETE is settled by the bytes it consumes: same value and cursor on any buffer that starts with them, longer or cut |
| Parser.ErrorStable | src/RespParser.cpp:11-197 | ERROR stays ERROR whatever bytes follow |
| Parser.VerdictStable | src/RespParser.cpp:11-197 | a COMPLETE or ERROR verdict is final, and COMPLETE needs no byte beyond its cursor |
| Numerals.StartReaches | src/RespParser.cpp:70-76 | the start of any text read as a number no smaller than a bound is one of the starts that can reach it |
| Numerals.ReachesNumber | src/RespParser.cpp:70-76 | every such start does reach it, with at most one more digit |
| Unfinished.CompletableIffOpen | src/RespParser.cpp:11-197 | for every tag and any nesting, an INCOMPLETE buffer can still become COMPLETE iff the bytes already there are open |
| Unfinished.Completion | src/RespParser.cpp:11-197 | bytes that complete any open buffer with nothing left over |
| Unfinished.SpoiltStringWaits | src/RespParser.cpp:11-18 | `+a\rb` is INCOMPLETE and no further bytes complete it |
| Unfinished.NegativeLengthWaits | src/RespParser.cpp:90-97 | `$-2` is INCOMPLETE and no further bytes complete it |
| Grammar.StollExactly | src/RespParser.cpp:70-76 | a text is refused by `stoll` iff it is no number of the protocol, and out of range iff its number leaves 64 bits |
| Grammar.ParseLLExactly | src/CommandDispatcher.cpp:31-39 | an argument is accepted iff it is a 64-bit number to its last byte, with that value |
| Grammar.PrintsIff | src/RespSerializer.cpp:32-39 | `to_string` gives the one spelling with no plus sign, no leading zero and no minus zero |
| Grammar.NumeralIffRead | src/RespParser.cpp:70-76 | the spellings of a number in the grammar are exactly those `stoll` reads |
| Grammar.AcceptsExactly | src/RespParser.cpp:11-213 | the parser completes with v after u bytes iff those u bytes are a sentence for v in the protocol's own bytes |
| Grammar.IncompleteExactly | src/RespParser.cpp:11-213 | INCOMPLETE iff no line has ended yet, a payload is short, or an element waits; ERROR iff neither that nor a sentence at the start |
| Grammar.PrintsExactly | src/RespSerializer.cpp:8-61 | what is printed for any value is, byte for byte, what the protocol says |
| RespParser.ReadSimpleString | src/RespParser.cpp:11-32 | verdict, result and cursor are those of the specification at the cursor; the result is untouched unless COMPLETE |
| RespParser.ReadSimpleError | src/RespParser.cpp:34-57 | the same for simple errors, the empty one being an ERROR |
| RespParser.ReadInteger | src/RespParser.cpp:59-82 | the same for integers |
| RespParser.ReadBulkString | src/RespParser.cpp:84-131 | the same for bulk strings and the null bulk string |
| RespParser.ReadElems | src/RespParser.cpp:159-171 | the element loop reads what the specification reads from the bytes at the cursor, or gives its first other verdict |
| RespParser.ReadArray | src/RespParser.cpp:133-176 | the same for arrays; on failure the result is untouched although the cursor has moved |
| RespParser.ReadOneInner | src/RespParser.cpp:178-197 | the verdict depends only on the bytes from the cursor on |
| RespParser.ParseOne | src/RespParser.cpp:200-213 | COMPLETE removes exactly the consumed bytes from the front of the buffer; otherwise buffer and result are untouched |
| Serializer.SerializeResp | src/RespSerializer.cpp:8-61 | appending piece by piece gives the serialization, for any nesting |
| RoundTrips.RoundTrip | src/RespSerializer.cpp:8-61 | a well-formed value, however nested, followed by any bytes, parses back to itself and leaves exactly those bytes |
| RoundTrips.SurvivesIffWellFormed | src/RespParser.cpp:11-213 | a value is read back from its serialization iff it is well-formed |
| RoundTrips.EmptyErrorIsRefused | src/RespParser.cpp:41-43 | the printed empty error is an ERROR, whatever follows it |
| RoundTrips.Canonicalisation | src/RespParser.cpp:11-176 | whatever was accepted, printing it and parsing gives the same value |
| RoundTrips.CanonicalShortest | src/RespSerializer.cpp:17-58 | the printed form of an accepted value is never longer than the bytes it was read from |
| Numerals.PrintedIffCanonical | src/RespSerializer.cpp:32-39 | a number is printed with the bytes it was read from iff they have no white space, plus sign, leading zero, minus zero or junk |
| Spellings.PrintedBackIffSpelled | src/RespSerializer.cpp:8-61 | printing an accepted value, however nested, gives back the very bytes iff every number and length in them is canonical |
| Spellings.PlusSignIsLost | src/RespParser.cpp:70-80 | `:+5` is read as 5 and printed as `:5` |
| Spellings.JunkIsLost | src/RespParser.cpp:70-80 | `:12abc` is read as 12 and printed as `:12` |
| RoundTrips.PrefixFree | src/RespSerializer.cpp:17-58 | no serialization of a well-formed value starts another's; serializing is injective |
| RoundTrips.StrictPrefixIncomplete | src/RespParser.cpp:200-213 | every strict prefix of a serialization is INCOMPLETE |
| Streams.DecodeAppend | src/RespParser.cpp:200-213 | decoding a stream may stop anywhere and resume with the leftover in front of the new bytes |
| Streams.DecodeSerialized | src/RespSerializer.cpp:53-56 | concatenated serializations decode to the values in order, then to whatever follows |
| Streams.StreamInvariant | src/RedisServer.cpp:99-141 | for every stream and split, up to the first error: consumed bytes plus buffer are the bytes received, and the consumed bytes decode exactly to what was dispatched |
| Streams.ChunkingIrrelevant | src/RedisServer.cpp:104-134 | two splits of the same bytes dispatch, once drained, the same values |
| Streams.Lag | src/RedisServer.cpp:110-133 | each receive dispatches exactly one value whenever one is complete, no more and no less |
| Streams.DispatchedClosedForm | src/RedisServer.cpp:104-134 | after n receives the number dispatched is the least over j of the values complete in the first j chunks plus n - j |
| Streams.NothingLagsIff | src/RedisServer.cpp:104-134 | everything complete is dispatched iff since every earlier moment no more values became complete than chunks arrived |
| Streams.TwoInOneChunkLag | src/RedisServer.cpp:110-133 | of two commands in one chunk only the first is dispatched |
| Streams.FailsNowIff | src/RedisServer.cpp:135-139 | a receive fails iff its chunk breaks the stream: an error in the bytes so far, and no more values before it than the earlier receives could dispatch |
| Streams.FailsIff | src/RedisServer.cpp:104-139 | for every stream and every split, a client has failed iff some chunk broke its stream |
| Streams.LiveIff | src/RedisServer.cpp:104-139 | no receive follows an error iff no chunk but the last broke the stream |
| Streams.CommandsArriveInOrder | src/RedisServer.cpp:104-134 | a prefix of well-formed commands, cut anywhere, never fails and dispatches a prefix of them |
| Ranks.RankTrichotomy | include/Database.h:27-30 | the order on (score, member) is total and strict |
| Ranks.RankTransitive | include/Database.h:27-30 | the order on (score, member) is transitive |
| Ranks.RankLessIff | include/Database.h:27-30 | one pair precedes another iff its score is lower, or equal and its member first differs at a smaller byte or ends first |
| Ranks.IndexIsRanking | include/Database.h:27-30 | an index that lists exactly the members' pairs in order is the sorted member map, and as large as the map |
| Ranks.RankingIff | include/Database.h:27-30 | the ranking is the one enumeration of the members, each once with its score, in that order |
| Ranks.InsertRank | src/Database.cpp:548 | inserting a pair keeps the index strictly sorted and adds just that pair, without duplicates |
| Ranks.EraseRank | src/Database.cpp:540 | erasing a pair keeps the index strictly sorted and removes just that pair |
| Store.WindowExact | src/Database.cpp:237-253 | the window is one contiguous piece, and an index is in it iff it lies between the normalised bounds |
| Store.WindowsConcatenate | src/Database.cpp:566-588 | adjacent windows with non-negative bounds concatenate |
| Store.RangeOfOne | src/Database.cpp:271-292 | LRANGE i i and LINDEX i agree for every i |
| Store.ZRangeRefinesSorting | src/Database.cpp:553-609 | ZRANGE returns the window of the members sorted by score and then member, plainly in order, and every score is that member's ZSCORE |
| Databases.Clamp | src/Database.cpp:237-248 | the clamped bounds are the normalised ones cut to the list, and no 64-bit operation overflows |
| Databases.AddMember | src/Database.cpp:536-550 | after a new member, a changed or an equal score, map and index agree and the index is the sorted map |
| Databases.RemoveMembers | src/Database.cpp:621-633 | with misses and duplicates, map and index agree after the loop and the count is the number removed |
| Databases.InsertAll | src/Database.cpp:445-454 | the loop adds the arguments as a set and counts the growth |
| Databases.EraseAll | src/Database.cpp:467-471 | the loop removes the arguments as a set and counts the shrinkage |
| Databases.EraseFields | src/Database.cpp:344-348 | the loop removes the named fields and counts the shrinkage |
| Databases.AssignFields | src/Database.cpp:305-313 | the loop assigns the pairs in order, later ones winning, and counts the new fields |
| Databases.Database.Del | src/Database.cpp:6-14 | removes the key and says whether it was there |
| Databases.Database.Set | src/Database.cpp:59-61 | stores a string whatever was there |
| Databases.Database.SetNX | src/Database.cpp:63-71 | stores a string only when the key is missing |
| Databases.Database.Append | src/Database.cpp:73-87 | the new database and result are those of the specification on the key's slot, all other keys unchanged |
| Databases.Database.IncrBy | src/Database.cpp:102-134 | the overflow guards compute exactly "the true sum fits 64 bits", and no operation overflows |
| Databases.Database.LPush | src/Database.cpp:137-155 | the loop puts the values in front in reverse order, creating the key when missing |
| Databases.Database.RPush | src/Database.cpp:157-175 | the loop puts the values at the back in order, creating the key when missing |
| Databases.Database.LPop | src/Database.cpp:177-197 | takes the first element and erases the key with the last one |
| Databases.Database.RPop | src/Database.cpp:199-219 | takes the last element and erases the key with the last one |
| Databases.Database.LRange | src/Database.cpp:221-256 | clamping and copying give exactly the window, for all 64-bit bounds |
| Databases.Database.LIndex | src/Database.cpp:271-292 | the element at the normalised index, or none |
| Databases.Database.HSet | src/Database.cpp:295-314 | new slot and count are those of the specification |
| Databases.Database.HDel | src/Database.cpp:334-353 | new slot and count are those of the specification; the key goes with its last field |
| Databases.Database.SAdd | src/Database.cpp:435-455 | new slot and count are those of the specification |
| Databases.Database.SRem | src/Database.cpp:457-478 | new slot and count are those of the specification; the key goes with its last member |
| Databases.Database.ZAdd | src/Database.cpp:523-551 | the stored index equals the new member map sorted afresh |
| Databases.Database.ZRem | src/Database.cpp:611-640 | the stored index equals the remaining member map sorted afresh; the key goes with its last member |
| Databases.Database.ZRange | src/Database.cpp:553-591 | clamping and walking the index give exactly the window, for all 64-bit bounds |
| Dispatcher.CountExisting | src/CommandDispatcher.cpp:85-95 | the loop counts a present key once for each time it is named |
| Dispatcher.DeleteAll | src/CommandDispatcher.cpp:104-114 | the loop removes the named keys and counts exactly the shrinkage of the database |
| Dispatcher.HandleRead | src/CommandDispatcher.cpp:130-670 | look-ups by missing key, wrong type and value, ranges through the store's methods, and walks item by item reply what the specification replies |
| Dispatcher.HandleWrite | src/CommandDispatcher.cpp:142-634 | writing handlers leave the database and reply as specified |
| Dispatcher.Handle | src/CommandDispatcher.cpp:66-670 | any handler leaves the database and replies as specified |
| Dispatcher.DispatchCommand | src/CommandDispatcher.cpp:693-724 | the argument and verb loops, the look-up and the handler compute the specified transition for every RESP value |
| Requests.EveryRequest | src/CommandDispatcher.cpp:693-724 | every value is malformed, names no command, or asks one command with its arguments |
| Requests.LookupIff | src/CommandDispatcher.cpp:676-722 | a command is found under its own name, in any letter case, and under no other |
| Requests.Asked | src/CommandDispatcher.cpp:693-724 | the arguments of a request go to the command of that name, in order |
| Answers.MalformedRefused | src/CommandDispatcher.cpp:695-710 | anything but a non-empty array of bulk strings gets the INVALID error, letter by letter, and changes nothing |
| Answers.UnheardRefused | src/CommandDispatcher.cpp:719-722 | a name no command has is echoed in capitals between the quotes of its error |
| Answers.WrongCountRefused | src/CommandDispatcher.cpp:66-670 | each command with a number of arguments it does not take gets the INVALID error and changes nothing |
| Answers.BadNumberRefused | src/CommandDispatcher.cpp:175-670 | an argument that should be a number and is none gets the NOT INTEGER error |
| Answers.BadOptionRefused | src/CommandDispatcher.cpp:636-650 | a fourth argument of ZRANGE other than WITHSCORES gets the INVALID error |
| Answers.WrongKindRefused | src/CommandDispatcher.cpp:142-670 | each command on a key of another type gets the WRONGTYPE error and changes nothing |
| Answers.EchoAnswer | src/CommandDispatcher.cpp:66-82 | ECHO and PING with an argument answer it |
| Answers.PingAnswer | src/CommandDispatcher.cpp:74-77 | PING answers PONG |
| Answers.ExistsAnswer | src/CommandDispatcher.cpp:85-95 | EXISTS counts the arguments that are keys |
| Answers.DelAnswer | src/CommandDispatcher.cpp:104-114 | DEL leaves the other keys as they were and answers how many it removed |
| Answers.SizeAnswer | src/CommandDispatcher.cpp:97-102 | DBSIZE answers the number of keys |
| Answers.KeysAnswer | src/CommandDispatcher.cpp:116-128 | KEYS lists every key once |
| Answers.TypeAnswer | src/CommandDispatcher.cpp:130-139 | TYPE names the type of what the key holds |
| Answers.SetAnswer | src/CommandDispatcher.cpp:232-238 | SET stores the value under the key and answers OK |
| Answers.SetNXAnswer | src/CommandDispatcher.cpp:240-249 | SETNX stores it and answers 1 iff the key is missing |
| Answers.GetAnswer | src/CommandDispatcher.cpp:201-261 | GET, GETDEL and STRLEN answer the text and its length; GETDEL removes the key |
| Answers.AppendAnswer | src/CommandDispatcher.cpp:142-151 | APPEND puts its argument behind the text and answers the new length |
| Answers.SetAppendGet | src/CommandDispatcher.cpp:142-238 | SET x, APPEND y, GET answers x followed by y |
| CollectionAnswers.LPushAnswer | src/CommandDispatcher.cpp:323-338 | LPUSH puts each value in front of those before it and answers the new length |
| CollectionAnswers.RPushAnswer | src/CommandDispatcher.cpp:340-355 | RPUSH puts the values behind, in order, and answers the new length |
| CollectionAnswers.PopAnswer | src/CommandDispatcher.cpp:293-321 | LPOP answers and takes the first element, RPOP the last; the key goes with the last one |
| CollectionAnswers.LLenAnswer | src/CommandDispatcher.cpp:282-291 | LLEN answers the length |
| CollectionAnswers.LIndexAnswer | src/CommandDispatcher.cpp:263-280 | LINDEX answers the element at the index, counted from the end when negative, or nil |
| CollectionAnswers.LRangeAnswer | src/CommandDispatcher.cpp:357-376 | LRANGE lists in order exactly the elements from start to stop |
| CollectionAnswers.SAddAnswer | src/CommandDispatcher.cpp:504-519 | SADD adds its arguments as a set and answers how many are new |
| CollectionAnswers.SRemAnswer | src/CommandDispatcher.cpp:521-536 | SREM removes them, answers how many were there, and the key goes with its last member |
| CollectionAnswers.SIsMemberAnswer | src/CommandDispatcher.cpp:538-547 | SISMEMBER answers membership |
| CollectionAnswers.SCardAnswer | src/CommandDispatcher.cpp:549-576 | SCARD answers the size, SMEMBERS lists each member once |
| HashAnswers.HSetAnswer | src/CommandDispatcher.cpp:379-395 | HSET gives each field the value that follows it last, leaves the others, and answers how many are new |
| HashAnswers.HDelAnswer | src/CommandDispatcher.cpp:412-427 | HDEL removes the fields, answers how many were there, and the key goes with its last field |
| HashAnswers.HGetAnswer | src/CommandDispatcher.cpp:397-410 | HGET answers the field's value, or nil |
| HashAnswers.HExistsAnswer | src/CommandDispatcher.cpp:429-438 | HEXISTS answers whether the field is there |
| HashAnswers.HLenAnswer | src/CommandDispatcher.cpp:440-449 | HLEN answers the number of fields |
| HashAnswers.HWalkAnswer | src/CommandDispatcher.cpp:451-502 | HGETALL, HKEYS and HVALS list each field once, with its value, in one order |
| HashAnswers.HSetThenHGet | src/CommandDispatcher.cpp:379-410 | HSET and then HGET of a field answers the last value given to it |
| SortedSetAnswers.ZAddAnswer | src/CommandDispatcher.cpp:578-591 | ZADD takes the score before the member, stores it, re-ranks, and answers whether the member is new |
| SortedSetAnswers.ZRemAnswer | src/CommandDispatcher.cpp:619-634 | ZREM removes the members, answers how many were there, and the key goes with its last member |
| SortedSetAnswers.ZScoreAnswer | src/CommandDispatcher.cpp:593-617 | ZSCORE answers the member's score as printed, or nil; ZCARD the number of members |
| SortedSetAnswers.ZRangeAnswer | src/CommandDispatcher.cpp:636-670 | ZRANGE lists in rank order exactly the members from start to stop, each followed by its score with the option |
| DispatchLaws.ParsedIsLegal | src/CommandDispatcher.cpp:323-388 | arity checks let no push, HSET or SADD through without an element |
| DispatchLaws.ApplySoundIff | src/Database.cpp:137-175 | an operation keeps its key sound iff it is not an addition of nothing or the key is present |
| DispatchLaws.DispatchSound | src/CommandDispatcher.cpp:693-724 | for every value sent: no empty collection is stored and every sorted set's index is its members in order |
| DispatchLaws.DispatchAtomic | src/CommandDispatcher.cpp:85-670 | an error reply means the database is unchanged |
| DispatchLaws.ExecLocal | src/CommandDispatcher.cpp:85-670 | what a command does to a key depends on what that key held and on nothing else; unnamed keys are untouched |
| DispatchLaws.DisjointCommute | src/CommandDispatcher.cpp:85-670 | commands that name different keys leave the same database in either order, and those on one key give the same reply |
| DispatchLaws.DispatchFrame | src/CommandDispatcher.cpp:693-724 | only keys among the arguments can change |
| DispatchLaws.TypeStable | src/Database.cpp:58-61 | a key present before and after a command other than SET keeps its type |
| DispatchLaws.ReplyFidelity | src/CommandDispatcher.cpp:712-723 | a client reads back exactly the dispatched reply iff the command's name has no CR or LF |
| DispatchLaws.LineBreakInName | src/CommandDispatcher.cpp:719-722 | the reply to a command named `A\nB` is not read back |
| Runs.DispatchIsRun | src/CommandDispatcher.cpp:693-724 | dispatching values is running the accepted commands; refused values leave no trace |
| Runs.ReachableSound | src/CommandDispatcher.cpp:693-724 | every state reached from the empty database is sound |
| Runs.ReachableRanks | src/Database.cpp:523-640 | in every reachable state a sorted set is non-empty, its index strictly sorted with nothing stale or double, and of the map's size |
| Runs.TypeStableRun | src/Database.cpp:58-61 | over a run in which the key never vanishes only SET can change its type |
| Runs.QueueDiscipline | src/Database.cpp:157-197 | with RPUSH and LPOP on a key, what was there and everything pushed equals everything popped followed by what is left, across vanishing and recreation |
| Runs.StackDiscipline | src/Database.cpp:137-197 | with LPUSH and LPOP, a run that never pops below its start leaves the start untouched underneath |
| Runs.LastInFirstOut | src/Database.cpp:137-197 | once all pushed after x is popped, the next LPOP returns x and leaves what was pushed before it, in the same command or earlier |
| Runs.MirrorRun | src/Database.cpp:137-219 | exchanging left and right in a run reverses the list and changes no reply along the way |
| Tallies.CounterRun | src/Database.cpp:102-134 | from a missing key, after any run, the key holds the decimal form of the exact sum of the increments that succeeded, and it reads back |
| Tallies.CounterVerbs | src/CommandDispatcher.cpp:153-199 | in any database INCR, DECR, INCRBY and DECRBY store, printed, and return the exact result, or refuse it as out of range and change nothing |
| Tallies.CounterRefused | src/Database.cpp:113-133 | text that is no number gets the NOT INTEGER error, a number beyond 64 bits the OUT OF RANGE error, and both stay as they are |
| Tallies.DecrByMinimum | src/CommandDispatcher.cpp:195-197 | DECRBY of the smallest integer is refused as out of range whatever the key holds |
| Tallies.DecrByExact | src/CommandDispatcher.cpp:186-199 | DECRBY is exact in that sense iff the decrement is not the smallest integer or the counter is not negative |
| Tallies.DecrByMinimumRefused | src/CommandDispatcher.cpp:195-197 | `DECRBY key -9223372036854775808` on a counter at -1 is refused, though the difference fits |
| Tallies.CardStep | src/Database.cpp:295-353 | the reply of a collection command is exactly the change in cardinality |
| Tallies.CardinalityConserved | src/Database.cpp:435-478 | over any run, cardinality is what it was plus all claimed additions minus all claimed removals |
| Tallies.DelCounts | src/CommandDispatcher.cpp:104-114 | DEL's reply is the drop in DBSIZE and the number of distinct present keys named |
| Contents.LastWriterWins | src/Database.cpp:305-353 | over any run, each field, member and score is what the last command naming it made it |
| Contents.LookUpsAfterRun | src/CommandDispatcher.cpp:398-438 | after any run HGET, HEXISTS, SISMEMBER and ZSCORE answer what the last command that named the member said |
| Contents.CardsAfterRun | src/CommandDispatcher.cpp:440-449 | after any run HLEN, SCARD and ZCARD answer the claimed additions minus the claimed removals |
| Contents.RangeAfterRun | src/CommandDispatcher.cpp:636-670 | after any run ZRANGE answers, for all bounds, a slice of the members last said to be there, plainly in order of the score last said and then of the member |
| Contents.MembersAfterRun | src/Database.cpp:480-497 | after any run SMEMBERS lists each member last said to be there once, and nothing else |
| Contents.FieldsAfterRun | src/CommandDispatcher.cpp:451-502 | after any run HGETALL, HKEYS and HVALS answer each field last said to be there once, with the value last said |
| ServerRuns.SerialExecution | src/RedisServer.cpp:99-134 | for every interleaving of clients, the database and every reply sent are those of executing the dispatched commands in dispatch order |
| ServerRuns.ServerSound | src/RedisServer.cpp:99-134 | the shared database is sound in every state of the server |
| ServerRuns.Isolation | src/RedisServer.cpp:80-141 | a client's dispatched commands and buffer are a function of its own chunks, whenever it and the others connected, up to and including the first error |
| ServerRuns.AliveIff | src/RedisServer.cpp:101-140 | the server is alive iff no connected client's own stream has failed |
| ServerRuns.AliveIffUnbroken | src/RedisServer.cpp:101-140 | the same on the bytes received: iff no client's stream has come to a chunk that breaks it |
| ServerRuns.OneBadByteEndsAll | src/RedisServer.cpp:135-140 | after the single byte `!` from one client nothing is served to anyone, whatever follows |
| ServerRuns.ClientStream | src/RedisServer.cpp:99-134 | for every client in every interleaving, its bytes decode to what was dispatched for it followed by its buffer |
| ServerRuns.WellBehavedClients | src/RedisServer.cpp:80-141 | clients that send well-formed commands, whenever they connect and however they are cut and interleaved, never end the run, and each is served in order |
| ClientViews.ClientReadsReplies | src/RedisServer.cpp:110-133 | for every interleaving, all bytes sent to a client decode to the replies to its own commands, one each and in order, iff no name among them has a CR or LF |
| ClientViews.ReadsLastSet | src/CommandDispatcher.cpp:201-238 | between a SET and a later GET any clients may send any commands that leave the key alone; whoever sent the GET reads exactly the value |
| ClientViews.SetThenGet | src/CommandDispatcher.cpp:201-238 | SET then GET over the wire, the names in any letter case, returns the value, for all binary keys and values |
| RedisServers.RedisServer.Register | src/RedisServer.cpp:80-87 | accepting a client is one step of the state machine: a new descriptor gets an empty buffer of its own; a registered one is refused |
| RedisServers.RedisServer.ReceiveOnce | src/RedisServer.cpp:101-140 | one receive is one step of the state machine: append, parse once, dispatch, send |
| RedisServers.RedisServer.ReceiveCommand | src/RedisServer.cpp:99-157 | the receive loop is the run over its chunks, and stops at the first error |

## Left out

- Databases.Database.LPop: requires that a stored list is not empty, since taking the front of an empty deque is undefined; `ReachableSound` shows no empty list is ever stored.
- Databases.Database.RPop: the same requirement.
- Databases.Database.LRange: assumes that a list holds at most 2^63 - 1 elements, as a deque does; LINDEX and ZRANGE assume the same.
- DispatchLaws.ReplyFidelity: assumes that stored strings and containers are of sizes the platform's containers can have.
- ClientViews.ClientReadsReplies: assumes the same of every state the run goes through.
- Tallies.CardinalityConserved: assumes that a collection never exceeds 2^63 - 1 members during the run; `Contents.CardsAfterRun` assumes the same.
- RedisServers.RedisServer.ReceiveCommand: is given what successive `recv` calls return; replies are recorded in a history instead of being sent.
- Sockets, epoll, accept, nonblocking flags and the send loop (its error test compares an unsigned count with zero and never fires).
- Closing connections other than by a protocol error: an orderly shutdown by the peer, and the hang-up branch that calls `close_client` with its arguments exchanged.
- Reading and printing of scores: parameters of the model. A score is an ordered value, infinities included; NaN, which `stod` accepts, is excluded, and the two zeros are one score.
- The order in which unordered containers are walked: a parameter, fixed for a run, constrained only to visit each element once. KEYS ignores its pattern, as the source does.
- The balanced tree behind the sorted-set index: a sorted sequence with linear search; references into containers: a local that is written back.
- The arity checks and the conversion of arguments (`parse_ll`, the option of ZRANGE) are functions only.
- Argument ranges copied in a loop are slices.
- Allocation failure, among others for a huge announced array length, and stack depth.
- The command-line client, the `main` functions, debug output and the build.
