# Site On Your Device: verified models

Site On Your Device lets a browser reach a site that runs on a device behind a
NAT. The back end keeps one inner connection per device, talks to Redis, and
relays commands and replies between the front end and the devices. This project
models the parts of it where bytes turn into meaning and where state is shared,
and proves what those parts promise.

| file | models |
|---|---|
| `Text.dfy`, `Decimal.dfy` | byte strings; decimal text, `readLongLong`, `countDigits`, `sdsll2str` |
| `Sds.dfy` | the `Sds` class: five header widths, truncating length fields, growth policy, in-place edits |
| `SdsSplit.dfy`, `SdsQuote.dfy` | splitting and joining; the quoting printer and the tokenizer |
| `Resp.dfy` | the Redis reply grammar as a recursive decoder, and a printer |
| `RespMachine.dfy` | the same decoder as a machine with an explicit stack that may stop at any byte |
| `Reader.dfy` | `redisReader`: sds buffer, nine-slot task stack, reply objects linked through their parents |
| `Format.dfy`, `Loopback.dfy` | the two command formatters; printers and readers end to end |
| `Wire.dfy` | replies from their bytes to the fields of the delivered objects |
| `Messages.dfy` | the inner protocol's messages, their parser, and the login text |
| `Callbacks.dfy` | request ids and pending callbacks |
| `Registry.dfy` | connections, host map and published notices |
| `Relay.dfy`, `Dispatch.dfy` | front-end messages to the device, replies back to the browser |
| `WebSocket.dfy` | the frame codec (sections 5.2 and 5.3 of RFC 6455) and the echo handler |

Code that changes buffers, fields or arrays step by step is modelled by classes
and methods over arrays. Each method is proved against a function of the old
state, and the lemmas are about those functions. A C byte is a Dafny `char`,
except in the WebSocket codec, which needs bit operations and uses `bv8`.

Numbers follow a machine with 32-bit `int` and 64-bit `long` and `size_t`. On
bytes on which the C code is undefined the decoder yields `Undefined`; the reader
class is about streams on which it does not.

The reply reader is proved in three layers. `Resp` says what a byte stream means,
by recursion. `RespMachine` does the same with a stack and may run out of bytes
anywhere; `NextReplyMeaning` shows that nothing is lost by that, and
`ChunkingIndependence` that the cuts do not matter. `Reader` is the imperative
program; every method follows the machine, and `ReadStream` states the result
for the reply objects in the heap. `Wire.ReadItems` says the same without the
layers: these bytes in, objects with these type codes and fields out.

## What the proofs found

- Registry. The server asks `who_are_you` once per connection, but nothing stops
  a connection from answering twice. A second accepted answer leaves the first
  host in the map for good (`SecondAnswerLocks`), and after the connection is
  closed the lookup returns it (`ClosedConnectionFound`). `OwnedRun` gives the
  exact condition on a run: the map is right if and only if no connection was
  registered twice. `OnceRun` concludes it for all runs in which every connection
  answers at most once. That notices alternate does not depend on this
  (`EveryRun`).
- Relay. `parse_command_out` only returns when it meets a third blank, so a reply
  of two words never reaches the browser. `RelayedReply` is an equivalence; the
  acknowledgement of a configuration change is such a reply (`SetConfigReplyLost`).
- Failure texts. The text for a message that cannot be delivered prints the id, a
  string, with the directive of a 64-bit number (server_commands.h, line 50). The browser sees the id it sent
  if and only if the library prints it as that text (`FailureReported`).
- Login text. A login or a password with a colon is not read back
  (`AuthRoundTrip`; the host text may hold colons), and the device sends the text
  unquoted, so one with a blank or a quote is not either. `WhoAreYouAnswer` is an
  equivalence.
- Messages. `make_request` and the other builders cut a message at 1023 bytes,
  and what is cut has no end. `RequestRoundTrip` and `StateRoundTrip` are exact
  about it.
- Messages. A reply whose arguments cannot be told apart is refused and closes the
  connection, but it has already used up the callback that waited for its id
  (`RefusedReplyRuns`).
- WebSocket. A frame without payload is taken as complete from its second byte,
  before the masking key has arrived (`EmptyFrameEarly`). Payloads from 65532
  bytes would not fit the answer buffer of 65535 bytes, but no request of at most
  that size carries that many (`ServerFrameFits`, `AnswerFits`); the read buffer
  is smaller still.
- Reader. An array count is tested as a `long` but passed on as an `int`, and the
  object stores that as a `size_t`. A count from 1 to the largest `int` opens that
  many children and no other does (`CountTaken`); 4294967296 opens an array
  without slots, whose first child would be stored through a null pointer
  (`CountCutToZero`), 4294967297 an array of one child (`CountCutToOne`), and -2
  delivers an array that announces 2^64 - 2 children and has none
  (`NegativeCount`). `CompleteItem` says exactly which replies are complete, and
  `DefinedStream` on which streams the code is defined, which is what `ReadStream`
  asks.
- Reader. `seekNewline` looks at the byte behind the unread bytes when those end
  in CR. That is inside the buffer only because sds keeps a terminator there.
- The comment on nesting speaks of a depth of 7. The code accepts arrays at stack
  indexes 0 to 7 and refuses one at index 8, and so does the model.
- `sdsIncrLen` on a type 5 string checks the length against 32 and not against the
  allocation. A fresh `abc` passes the assertion for an increment of 10
  (`ShortOverrun`); `IncrementInside` says when an asserted increment stays inside.
- The ping failure reply is built with the success format, and is modelled so.

## Model

| member | source | states |
|---|---|---|
| RespMachine.ChunkingIndependence | back_end/src/third-party/redis/deps/hiredis/read.c:445-525 | for every list of chunks, feeding and draining chunk by chunk gives the replies, the error, the parser state and the unread rest of draining the concatenation at once, and the replies and error are those of the recursive decoder |
| Reader.ReadStream | back_end/src/third-party/redis/deps/hiredis/read.c:416-525 | on every stream of at most INT_MAX bytes that does not lead the code to something undefined, cut in any way, a fresh reader delivers heap replies that represent, one for one, exactly the trees of the recursive decoder, and ends in exactly its error; the replies have all the children they announce if and only if no array line below -1 (multiples of 2^32 aside) was read for them |
| Wire.ReadItems | back_end/src/third-party/redis/deps/hiredis/read.c:215-525 | status, error, number, bulk, nil and array replies as a server writes them byte for byte, cut in any way, come out as one object each, with the type codes 5, 6, 3, 1, 4 and 2, its text, number and slots those that were sent, at every nesting the reader supports; no error and no unread byte remains |
| Wire.Decodes | back_end/src/third-party/redis/deps/hiredis/read.c:215-414 | the bytes of each of these, followed by anything and at any supported depth, decode to the reply they were written for and leave the rest |
| Wire.DrainsItems | back_end/src/third-party/redis/deps/hiredis/read.c:477-525 | so do any number of them in a row, with the parser idle afterwards |
| Resp.NilArrayLine | back_end/src/third-party/redis/deps/hiredis/read.c:316-331 | an array line with a decimal number is a nil reply if and only if the number is -1 |
| Resp.NegativeBulk | back_end/src/third-party/redis/deps/hiredis/read.c:262-271 | every negative bulk length is a nil reply |
| Resp.BulkTrailer | back_end/src/third-party/redis/deps/hiredis/read.c:273-292 | the two bytes behind a bulk body may be any |
| Resp.UnknownType | back_end/src/third-party/redis/deps/hiredis/read.c:372-396 | a first byte other than the five is refused and named in the error |
| Resp.NamedTypeUnknown | back_end/src/third-party/redis/deps/hiredis/read.c:372-396 | the byte an error names is never one of the five, at any depth of nesting |
| Resp.NestingLimit | back_end/src/third-party/redis/deps/hiredis/read.c:310-314 | up to eight arrays inside each other are read, and the ninth is refused |
| Resp.DefinedStream | back_end/src/third-party/redis/deps/hiredis/read.c:148-365 | the decoder meets something undefined exactly when a number overflows a long long, a bulk length overflows with its trailer, or an item is complete whose parent is an array without slots |
| Resp.CountTaken | back_end/src/third-party/redis/deps/hiredis/read.c:302-354 | an array line opens as many children as it says if and only if the count is between 1 and the largest int; a task over an object without slots if and only if the count is positive and cut to a non-positive int; it is undefined if and only if it overflows |
| Resp.CountCutToZero | back_end/src/third-party/redis/deps/hiredis/read.c:306-345 | after the count 4294967296 the decoder waits, reports a wrong type byte, and is undefined at the first complete child |
| Reader.RedisReader.OpenBare | back_end/src/third-party/redis/deps/hiredis/read.c:333-353 | a positive count that is not positive as an int pushes a task for a child of an object that has no slots |
| Resp.CountCutToOne | back_end/src/third-party/redis/deps/hiredis/read.c:306-345 | the count 4294967297 delivers an array of one child |
| Resp.NegativeCount | back_end/src/third-party/redis/deps/hiredis/hiredis.c:134-149 | the count -2 delivers an array that announces 2^64 - 2 children and has none |
| Resp.CompleteItem | back_end/src/third-party/redis/deps/hiredis/read.c:302-365 | a reply has every announced child if and only if no array line below -1 that is not cut to 0 was read for it, at any depth |
| Resp.CompleteStream | back_end/src/third-party/redis/deps/hiredis/read.c:302-365 | the same for all replies of a stream |
| Reader.SlotsFull | back_end/src/third-party/redis/deps/hiredis/hiredis.c:134-157 | an array object whose tree has all its children has exactly the slots it announces, none of them empty, and conversely |
| Reader.FeedAndDrain | back_end/src/third-party/redis/deps/hiredis/read.c:445-525 | the reader object with its buffer, compaction and task stack follows the chunked machine from any valid state without an error: same replies, error, parser state and unread bytes, provided the machine meets nothing undefined |
| Reader.DrainReader | back_end/src/third-party/redis/deps/hiredis/read.c:477-525 | taking replies until none is left terminates and gives exactly what draining the machine gives, provided it meets nothing undefined |
| RespMachine.NextReplyMeaning | back_end/src/third-party/redis/deps/hiredis/read.c:190-414 | the explicit-stack machine delivers a reply, an error or nothing exactly when the recursive decoder, resumed under the open arrays, completes, fails or needs more bytes, with the same tree and rest |
| RespMachine.StepMeaning | back_end/src/third-party/redis/deps/hiredis/read.c:367-414 | one step of the machine (a type byte or an item body) keeps the meaning of parser state and unread bytes under the recursive decoder |
| RespMachine.SettleMeaning | back_end/src/third-party/redis/deps/hiredis/read.c:190-213 | moving on to the next task, through any number of finished arrays, means what the recursive decoder does after that item |
| RespMachine.OpenMeaning | back_end/src/third-party/redis/deps/hiredis/read.c:302-365 | opening an array of n children means decoding n items one level deeper |
| RespMachine.DrainIsStream | back_end/src/third-party/redis/deps/hiredis/read.c:477-525 | draining a fresh parser gives the replies and the error of repeated recursive decoding |
| RespMachine.NextReplyExtend | back_end/src/third-party/redis/deps/hiredis/read.c:367-414 | more bytes after those already there never change a reply or an error that was reached, and a pending state continues as if all bytes had come at once |
| RespMachine.DrainExtend | back_end/src/third-party/redis/deps/hiredis/read.c:445-525 | draining, feeding more and draining again equals draining everything |
| RespMachine.ChunksAreOne | back_end/src/third-party/redis/deps/hiredis/read.c:445-525 | from any quiescent state, any further chunks act as their concatenation |
| Resp.DecodePrint | back_end/src/third-party/redis/deps/hiredis/read.c:215-365 | decoding inverts printing for every tree whose arrays nest at most eight deep and whose numbers the C types hold, whatever bytes follow |
| Resp.DecodePrintAll | back_end/src/third-party/redis/deps/hiredis/read.c:302-365 | the same for a list of children of an array |
| Resp.HeaderExtend | back_end/src/third-party/redis/deps/hiredis/read.c:120-188 | a line or body that has been read is read the same when more bytes follow |
| Reader.SeekNewline | back_end/src/third-party/redis/deps/hiredis/read.c:120-144 | finds the first CR LF and nothing else, reading at most the terminator behind the unread bytes |
| Decimal.ReadLongLong | back_end/src/third-party/redis/deps/hiredis/read.c:148-173 | on every text whose digits do not overflow, the loop over a 64-bit accumulator computes the signed decimal up to the first CR, or -1 on a foreign byte, without overflow, and never looks past the CR |
| Reader.RedisReader.constructor | back_end/src/third-party/redis/deps/hiredis/read.c:416-435 | a fresh reader is valid, idle, without error and without unread bytes |
| Reader.RedisReader.ReadLine | back_end/src/third-party/redis/deps/hiredis/read.c:175-188 | returns start and length of the next line and consumes it with its CR LF, or leaves everything when there is none |
| Reader.RedisReader.MoveToNextTask | back_end/src/third-party/redis/deps/hiredis/read.c:190-213 | pops finished arrays and advances the innermost open one, keeping the stack invariant and following the machine |
| Reader.PopTop | back_end/src/third-party/redis/deps/hiredis/read.c:202-206 | a full innermost array becomes a complete child of the next level, whose slot holds its object |
| Reader.NextChild | back_end/src/third-party/redis/deps/hiredis/read.c:207-211 | the innermost array goes on to its next child: earlier slots filled, later ones empty |
| Reader.PushArray | back_end/src/third-party/redis/deps/hiredis/read.c:344-353 | a new array becomes the innermost level: all slots empty, first child next, parent linked |
| Reader.RedisReader.CreateObject | back_end/src/third-party/redis/deps/hiredis/hiredis.c:102-189 | the new object hangs in its parent slot, its fields set, the int count stored as a size_t with slots only for a positive one, and no other slot changes |
| Reader.RedisReader.ProcessLineItem | back_end/src/third-party/redis/deps/hiredis/read.c:215-247 | follows the machine step for status, error and integer items: same reply tree, rest and stack |
| Reader.RedisReader.ProcessBulkItem | back_end/src/third-party/redis/deps/hiredis/read.c:249-300 | follows the machine step for bulk items: nil, body or not enough bytes; the two bytes behind the body are skipped unread |
| Reader.RedisReader.ProcessMultiBulkItem | back_end/src/third-party/redis/deps/hiredis/read.c:302-365 | follows the machine step for arrays: depth error, nil, an item without children to wait for, or a task pushed with the count cut to an int, over slots or over none |
| Reader.RedisReader.ProcessItem | back_end/src/third-party/redis/deps/hiredis/read.c:367-414 | reads the type byte if it is missing and dispatches; the reader ends in the state the machine reaches |
| Reader.RedisReader.SetError | back_end/src/third-party/redis/deps/hiredis/read.c:46-70 | drops the reply and the buffer, empties the stack and records the error |
| Reader.RedisReader.Feed | back_end/src/third-party/redis/deps/hiredis/read.c:445-475 | appends the chunk to the unread bytes or, after an error, refuses; the buffer reset changes nothing observable |
| Reader.RedisReader.Compact | back_end/src/third-party/redis/deps/hiredis/read.c:511-516 | dropping consumed bytes leaves the unread ones as they were |
| Reader.RedisReader.GetReply | back_end/src/third-party/redis/deps/hiredis/read.c:477-525 | delivers a reply object representing the next tree, reports the error, or returns nothing, exactly as the machine does; a delivered reply frees the reader for the next one |
| Loopback.SendAndRead | back_end/src/third-party/redis/deps/hiredis/hiredis.c:530-566 | formatting any argument list and feeding the bytes in any pieces yields exactly one reply, an array of bulk strings with exactly those arguments; no error and no unread byte remains |
| Format.ChunkedRoundTrip | back_end/src/third-party/redis/deps/hiredis/hiredis.c:530-566 | a command whose length fits int, cut into any chunks, is one array reply with its arguments, the parser idle afterwards |
| Format.CommandsRoundTrip | back_end/src/third-party/redis/deps/hiredis/hiredis.c:530-566 | any sequence of commands whose lengths fit int is read back as exactly those argument lists with nothing left |
| Format.CommandIsPrinted | back_end/src/third-party/redis/deps/hiredis/hiredis.c:547-562 | the command text is the printed form of the array of its arguments |
| Format.FormatCommandArgv | back_end/src/third-party/redis/deps/hiredis/hiredis.c:530-566 | the first pass computes the exact length, the second fills the allocation with the command and terminates it; every write is inside |
| Format.BuildCommand | back_end/src/third-party/redis/deps/hiredis/hiredis.c:400-413 | the shared second pass writes exactly totlen bytes of command text and the terminator |
| Format.WriteArg | back_end/src/third-party/redis/deps/hiredis/hiredis.c:405-410 | one bulk argument is written right behind what is there and nothing before it changes |
| Format.BulkLen | back_end/src/third-party/redis/deps/hiredis/hiredis.c:206-208 | the precomputed length is the length of the printed bulk string |
| Format.FormatCommand | back_end/src/third-party/redis/deps/hiredis/hiredis.c:210-417 | for formats of literals, blanks, %s, %b and %%, the output is the command of the format cut into words first and substituted afterwards |
| Format.FormattedWords | back_end/src/third-party/redis/deps/hiredis/hiredis.c:231-391 | for every list of words made of literal bytes and of slots for %s and %b, with any blanks around them, the arguments are these words with the slots filled in order; an empty one counts, and blanks, percents and CR LF inside a slot stay there |
| Format.LonePercent | back_end/src/third-party/redis/deps/hiredis/hiredis.c:232 | a percent that ends the format stands for itself |
| Format.ArgumentCount | back_end/src/third-party/redis/deps/hiredis/hiredis.c:231-391 | the number of arguments depends on the format alone: blanks and CR LF inside arguments never add or remove one |
| Format.UserLookup | back_end/src/server/redis_helpers.cpp:32 | the user lookup always becomes HGET, users and the login as one argument |
| Decimal.CountDigits | back_end/src/third-party/redis/deps/hiredis/hiredis.c:193-203 | the count equals the length of the decimal text, for every number |
| Decimal.ReadBack | back_end/src/third-party/redis/deps/hiredis/read.c:148-173 | reading the decimal text of an integer followed by CR gives the integer back |
| Decimal.ReadBackFits | back_end/src/third-party/redis/deps/hiredis/read.c:148-173 | that text is read without overflow if and only if the integer is a long long other than the smallest |
| Decimal.SignsAndForeign | back_end/src/third-party/redis/deps/hiredis/read.c:153-170 | a plus sign is skipped, and any byte that is no digit before the CR makes the result -1 |
| Decimal.Ll2Str | back_end/src/third-party/sds/sds.c:444-474 | writes the signed decimal text and a terminator inside the 21 byte buffer |
| Decimal.Ull2Str | back_end/src/third-party/sds/sds.c:477-503 | writes the unsigned decimal text, whose length countDigits computes, inside the 21 byte buffer |
| Decimal.ReverseInPlace | back_end/src/third-party/sds/sds.c:461-472 | the swap loop reverses the digits and touches nothing else |
| Decimal.DecLength | back_end/src/third-party/redis/deps/hiredis/hiredis.c:193-203 | a decimal text has at most k digits exactly when the number is below ten to the k |
| Decimal.LongWidth | back_end/src/third-party/sds/sds.c:442-444 | 64-bit numbers need at most 20 digits, positive signed ones 19 |
| SdsString.ReqType | back_end/src/third-party/sds/sds.c:57-67 | the header type is the narrowest that holds the size, with one value of each wider type kept back |
| SdsString.StoredModulo | back_end/src/third-party/sds/sds.h:129-151 | a length field loses whole rounds of its width and nothing else |
| SdsString.Sds.SetLen | back_end/src/third-party/sds/sds.h:129-151 | the length field keeps what fits its width; type 5 keeps it in the flags byte |
| SdsString.Sds.IncLen | back_end/src/third-party/sds/sds.h:153-176 | the length grows by the increment modulo the field width |
| SdsString.Sds.SetAlloc | back_end/src/third-party/sds/sds.h:196-215 | the allocation field keeps what fits its width |
| SdsString.Sds.NewLen | back_end/src/third-party/sds/sds.c:81-137 | a valid string with exactly the given content and no spare room; the empty one is type 8 |
| SdsString.Sds.NewZeroed | back_end/src/third-party/sds/sds.c:81-137 | with a null init, a valid string of that many zero bytes |
| SdsString.Sds.Reallocate | back_end/src/third-party/sds/sds.c:219-243 | content and length survive a move to any header type that can hold the capacity |
| SdsString.Sds.MakeRoomFor | back_end/src/third-party/sds/sds.c:197-244 | content unchanged and room for the asked bytes; untouched when there was room, otherwise the growth policy decides and type 5 is left behind |
| SdsString.SpareRoom | back_end/src/third-party/sds/sds.c:210-214 | a reallocation leaves as much spare room as is needed, up to one megabyte |
| SdsString.Sds.RemoveFreeSpace | back_end/src/third-party/sds/sds.c:252-278 | content unchanged, no spare room |
| SdsString.Sds.IncrLen | back_end/src/third-party/sds/sds.c:321-362 | under the assertion of the code, and for type 5 inside the buffer, the length moves by the signed increment, the content grows by the bytes already in the buffer or loses its tail, and is terminated |
| SdsString.Sds.IncrementInside | back_end/src/third-party/sds/sds.c:321-362 | an asserted increment stays inside the buffer for every wider header; for a type 5 string in a buffer of just its text and terminator if and only if it is negative |
| SdsString.ShortOverrun | back_end/src/third-party/sds/sds.c:321-330 | on a fresh abc the assertion accepts an increment of 10 although the buffer ends there |
| SdsString.Sds.GrowZero | back_end/src/third-party/sds/sds.c:369-382 | pads the content with zero bytes up to the length, or changes nothing |
| SdsString.Sds.CatLen | back_end/src/third-party/sds/sds.c:389-399 | appends exactly the given bytes, across any change of header type |
| SdsString.Sds.CpyLen | back_end/src/third-party/sds/sds.c:419-429 | the content becomes the given bytes |
| SdsString.Sds.CatFmt | back_end/src/third-party/sds/sds.c:599-687 | appends the expansion of a format of literals and %s |
| SdsString.FmtMeaning | back_end/src/third-party/sds/sds.c:599-687 | texts with every percent doubled and a %s between each two expand to the texts with the arguments between them |
| SdsString.FmtOther | back_end/src/third-party/sds/sds.c:669-672 | any other letter behind a percent stands for itself |
| SdsString.Sds.Trim | back_end/src/third-party/sds/sds.c:703-719 | the content loses its leading and trailing set bytes, in place |
| SdsString.TrimMeaning | back_end/src/third-party/sds/sds.c:703-719 | what is cut are set bytes only, and the rest neither starts nor ends with one; the terminator counts as a set byte, as strchr has it |
| SdsString.Sds.Range | back_end/src/third-party/sds/sds.c:737-767 | the content becomes the inclusive slice, negative indexes counted from the end and clamped |
| SdsString.SliceMeaning | back_end/src/third-party/sds/sds.c:737-767 | what is kept are just the positions between both ends, each counted from the front or, when negative, from the back; an end before the front is the first byte |
| SdsString.Sds.Clear | back_end/src/third-party/sds/sds.c:186-189 | empties the string and keeps the allocation |
| SdsString.AppendEach | back_end/src/third-party/sds/sds.c:389-399 | n single byte appends give exactly the text and k reallocations with two to the k at most n + 1, for n below 2^20 |
| SdsString.GrowthBound | back_end/src/third-party/sds/sds.c:197-244 | the same bound on the abstract growth policy |
| SdsSplit.SplitLen | back_end/src/third-party/sds/sds.c:825-876 | returns the tokens of the specification, None for an empty separator; every store is inside the slots the doubling rule allocated |
| SdsSplit.JoinTokens | back_end/src/third-party/sds/sds.c:825-876 | joining the tokens with the separator gives the string back |
| SdsSplit.TokensFreeOfSep | back_end/src/third-party/sds/sds.c:825-876 | no token contains the separator |
| SdsSplit.TokensEndFirst | back_end/src/third-party/sds/sds.c:850-866 | each token ends where the separator, of any length, occurs first |
| SdsSplit.NoTokens | back_end/src/third-party/sds/sds.c:836-839 | only the empty text has no tokens |
| SdsSplit.SplitJoin | back_end/src/third-party/sds/sds.c:825-876 | splitting a join of words without the one-byte separator gives the words back |
| SdsSplit.JoinSds | back_end/src/third-party/sds/sds.c:1165-1175 | the loop builds exactly the joined text |
| SdsSplit.Enlarge | back_end/src/third-party/sds/sds.c:836-843 | the moved token array keeps its tokens and has room for twice as many |
| SdsQuote.QuotingRoundTrip | back_end/src/third-party/sds/sds.c:895-1125 | the quoted forms of any byte strings, joined by blanks, hold no NUL, and the tokenizer specification gives those strings back, NUL, quotes and backslashes included |
| Loopback.QuoteAndSplit | back_end/src/third-party/sds/sds.c:895-1125 | quoting any byte strings into one sds line and running the tokenizer on its buffer returns exactly those strings |
| SdsQuote.CatRepr | back_end/src/third-party/sds/sds.c:895-928 | appends the quoted form of the bytes |
| SdsQuote.CatEscape | back_end/src/third-party/sds/sds.c:899-926 | appends the escape of one byte |
| SdsQuote.SplitArgs | back_end/src/third-party/sds/sds.c:1002-1125 | the scanning loops compute the tokenizer specification on the C string, terminate on every input and never read past the terminator |
| SdsQuote.TokenLoop | back_end/src/third-party/sds/sds.c:1014-1101 | one token: same value, same end and same refusals as the specification |
| SdsQuote.DoubleStep | back_end/src/third-party/sds/sds.c:1021-1063 | one turn inside double quotes: hex escapes, named escapes, closing quote followed by a blank or the end |
| SdsQuote.SingleStep | back_end/src/third-party/sds/sds.c:1064-1080 | one turn inside single quotes |
| SdsQuote.ReprWrites | back_end/src/third-party/sds/sds.c:895-1101 | the quoted form of any byte string is read as exactly that token in front of any blank or end |
| SdsQuote.SingleWrites | back_end/src/third-party/sds/sds.c:1064-1080 | text without an apostrophe and without a final backslash is read back from single quotes |
| SdsQuote.BareWrites | back_end/src/third-party/sds/sds.c:1081-1098 | a plain word is read as itself |
| SdsQuote.PrefixedReprWrites | back_end/src/third-party/sds/sds.c:1081-1098 | a double quote that opens inside a word adds to it: the word before the quote and the quoted bytes are one token |
| SdsQuote.PrefixedSingleWrites | back_end/src/third-party/sds/sds.c:1081-1098 | the same for single quotes and any text, its apostrophes behind backslashes |
| SdsQuote.BadClose | back_end/src/third-party/sds/sds.c:1053-1074 | a closing quote with anything but white space behind it makes the whole text refused |
| SdsQuote.Unclosed | back_end/src/third-party/sds/sds.c:1059-1077 | so does a quote of either kind that never closes |
| SdsQuote.Blanks | back_end/src/third-party/sds/sds.c:1009-1089 | words are apart at a space, line feed, carriage return or tab only, and all six white space bytes are skipped before a word |
| SdsQuote.OddEscapes | back_end/src/third-party/sds/sds.c:1022-1052 | a backslash before any other byte, or before an incomplete hex escape, stands for that byte; hex digits are read in both cases |
| SdsQuote.EscapeTable | back_end/src/third-party/sds/sds.c:899-924 | the quoted form of every byte: five named escapes, quote and backslash escaped, printable ASCII as it is, anything else as two lower-case hex digits |
| SdsQuote.ReadWords | back_end/src/third-party/sds/sds.c:1002-1125 | any list of words, each written in a readable way, is read back as a list |
| Messages.RequestRoundTrip | back_end/src/inner/inner_server_command_seq_parser.h:51-57 | what the receiver reads from the buffer of a request built from its format, its arguments plain or single-quoted C strings, is the same id, command and arguments if and only if it is shorter than 1024 bytes; a longer one arrives without its end |
| Messages.StateRoundTrip | back_end/src/inner/inner_server_command_seq_parser.h:65-78 | the same for response and approve messages with their state word |
| Messages.CutOff | back_end/src/inner/inner_server_command_seq_parser.h:52-56 | a message whose only CR LF is its end is cut to a text without one exactly when it has 1024 bytes or more |
| Messages.MessageRoundTrip | back_end/src/inner/inner_server_command_seq_parser.cpp:90-138 | any message without NUL whose words are written in a readable way is received with its kind, id and word list; the words read may hold any byte |
| Messages.HandleData | back_end/src/inner/inner_server_command_seq_parser.cpp:90-151 | the buffer parser computes the specification on the C string in the buffer, before the first CR LF, and stays inside the buffer |
| Messages.EndOfMessage | back_end/src/inner/inner_server_command_seq_parser.cpp:91-105 | a buffer has no end if and only if it holds no CR LF; otherwise what precedes the first one is the line, whatever follows |
| Messages.StrtoulReads | back_end/src/inner/inner_server_command_seq_parser.cpp:107-108 | white space, one sign or none, zeros and digits are read whole: the number, modulo 2^64 when negated, or the largest one when it does not fit |
| Messages.StrtoulNothing | back_end/src/inner/inner_server_command_seq_parser.cpp:107-108 | without a digit behind white space and sign nothing is consumed |
| Messages.NoNumber | back_end/src/inner/inner_server_command_seq_parser.cpp:108-119 | a line without a number is refused for its sequence unless it starts with a blank |
| Messages.NumberedLine | back_end/src/inner/inner_server_command_seq_parser.cpp:108-132 | a numbered line is refused for its sequence if and only if no blank follows the number, and for its id if and only if no second blank follows |
| Messages.WholeLine | back_end/src/inner/inner_server_command_seq_parser.cpp:134-151 | any other line is a command with the number cut to a byte, the id between the blanks and the words behind it, or is refused for its arguments if and only if these cannot be told apart |
| Messages.StrStrCrlf | back_end/src/inner/inner_server_command_seq_parser.cpp:92 | the search finds the first CR LF and stops at the terminator |
| Messages.ParseCommand | back_end/src/inner/inner_server_command_seq_parser.cpp:107-141 | sequence number, id and arguments, or the error of the first of them that is missing |
| Messages.AuthRoundTrip | back_end/src/infos.cpp:48-74 | printing and parsing a login record gives it back if and only if login and password hold no colon |
| Messages.WhoAreYouAnswer | back_end/src/client_commands.h:26-27 | the handler gets the same login, password and host text if and only if the login text is a bare word, login and password hold no colon, and the answer is shorter than 1024 bytes |
| Messages.UnquotedText | back_end/src/inner/inner_server_handler.cpp:147 | the third word received is the text the device sent if and only if that is a bare word; otherwise it is shorter |
| Callbacks.Conservation | back_end/src/inner/inner_server_command_seq_parser.cpp:69-88 | over every run, subscribed callbacks are executed ones plus pending ones as multisets: none lost, none run twice |
| Callbacks.PendingIsUnanswered | back_end/src/inner/inner_server_command_seq_parser.cpp:69-88 | after every run the pending callbacks are exactly those whose id has not been received since, in subscription order |
| Callbacks.SplitById | back_end/src/inner/inner_server_command_seq_parser.cpp:80-84 | removal by id divides the list into the matching and the other callbacks |
| Callbacks.WaitingInOrder | back_end/src/inner/inner_server_command_seq_parser.cpp:69-84 | the callbacks of an id run in subscription order and the others stay in theirs |
| Callbacks.IdsDistinct | back_end/src/inner/inner_server_command_seq_parser.cpp:58-65 | different counter values give different ids, and ids sort as text in issue order |
| Callbacks.IdIsCounter | back_end/src/inner/inner_server_command_seq_parser.cpp:58-65 | an id is sixteen lower-case hex digits that read as the value of the counter |
| Callbacks.HexTextOrder | back_end/src/inner/inner_server_command_seq_parser.cpp:58-65 | fixed-width hex text is ordered like the numbers |
| Callbacks.CommandSeqParser.NextId | back_end/src/inner/inner_server_command_seq_parser.cpp:58-65 | the id is the 16 digit hex text of the counter, which then advances and wraps after 2^64 |
| Callbacks.CommandSeqParser.SubscribeRequest | back_end/src/inner/inner_server_command_seq_parser.cpp:86-88 | adds the callback at the end and keeps the history invariant |
| Callbacks.CommandSeqParser.RemoveIf | back_end/src/inner/inner_server_command_seq_parser.cpp:80-84 | the walk runs the matching callbacks in order and moves the others, in order, to the front |
| Callbacks.CommandSeqParser.ProcessRequest | back_end/src/inner/inner_server_command_seq_parser.cpp:80-84 | runs exactly the callbacks of the id in order, keeps the others in order, and keeps the history invariant |
| Callbacks.CommandSeqParser.ExecRequest | back_end/src/inner/inner_server_command_seq_parser.cpp:69-76 | runs the callback when the id matches, and says so |
| Relay.ProcessSubscribed | back_end/src/server/inner/inner_tcp_server.cpp:47-59 | the published text is the id, a blank and the words joined by blanks |
| Relay.ParseCommandOut | front_end/public/scripts/script.js:51-91 | the scanning loop computes the specification: the text cut at its first three blanks |
| Relay.RelayedReply | back_end/src/server/inner/inner_tcp_server.cpp:47-59 | the browser gets id, status, command and remaining words if and only if there are at least three words and the first is a status; otherwise it gets nothing |
| Relay.ParseOutInverse | front_end/public/scripts/script.js:51-91 | what the browser gets says how the text was put together: id, status word, command and the rest |
| Relay.SetConfigReplyLost | front_end/public/scripts/script.js:60-90 | the two-word acknowledgement of a configuration change never reaches the browser |
| Dispatch.HandleMessage | back_end/src/server/inner/inner_tcp_server.cpp:72-141 | publishes the error text of the first failing test, or forwards to the connection the map holds for the host and subscribes the callback under the message id; the request is cut to its buffer |
| Dispatch.Undispatched | back_end/src/server/inner/inner_tcp_server.cpp:75-110 | a message without a blank is reported as unknown, and one whose id does not end inside the buffer as one without id; any other is forwarded if and only if the host is connected and the write succeeds |
| Dispatch.ReachesDevice | back_end/src/server/inner/inner_tcp_server.cpp:84-124 | a front-end message for a connected host, without NUL and shorter than 1024 bytes as a request, is received by the device as a request with the same id and words |
| Dispatch.FailureReported | back_end/src/server/inner/inner_tcp_server.cpp:112-135 | such a message that cannot be delivered reaches the browser as the failure of that command with the cause, under whatever the library prints for the id; the browser sees the id it sent if and only if that is the id |
| Dispatch.ReplyReachesBrowser | back_end/src/server/inner/inner_tcp_server.cpp:137-140 | the device reply is received with its words if it fits its buffer; with any other subscriptions and messages in between, it runs the waiting callback, which is no longer pending then; and the published text shows the browser the same id, status, command and words |
| Dispatch.StaysPending | back_end/src/inner/inner_server_command_seq_parser.cpp:80-88 | a subscribed callback stays pending as long as no message with its id is received |
| Dispatch.HandleInnerData | back_end/src/inner/inner_server_command_seq_parser.cpp:90-169 | a received buffer is parsed as specified; a refusal is answered with the failure of state_command, under the id read or a fresh one, and a command or a refusal with an id runs the callbacks waiting for that id |
| Dispatch.RefusalRead | back_end/src/inner/inner_server_command_seq_parser.cpp:92-151 | the other side reads the answer to any refused text as the failure of state_command with the words of the refused line under that id, refuses it in turn when these cannot be told apart, and misses its end if and only if it has 1024 bytes or more |
| Dispatch.RefusedReplyRuns | back_end/src/inner/inner_server_command_seq_parser.cpp:139-151 | a message with an id uses up the callbacks waiting for it even when its arguments are refused: they run without arguments, in order, and none is left |
| Registry.OwnedRun | back_end/src/server/http_server_host.cpp:211-252 | over every run, the host map holds only open registered connections under their own hosts if and only if no connection was registered a second time |
| Registry.OnceRun | back_end/src/server/http_server_host.cpp:211-252 | in every run where no connection answers who_are_you twice, none is registered twice, the host map is exactly the open registered connections, each under its own host, and notices alternate |
| Registry.EveryRun | back_end/src/server/inner/inner_tcp_server.cpp:187-209 | in every run whatsoever, a registered connection is found under its host, and the notices of each host strictly alternate beginning with connected, the last one telling whether the host is in the map |
| Registry.OwnedStep | back_end/src/server/http_server_host.cpp:227-239 | one step keeps the map free of strangers if and only if it does not register a connection that is registered already |
| Registry.SecondAnswerLocks | back_end/src/server/http_server_host.cpp:211-239 | once a connection is registered twice, its first host stays taken whatever happens later |
| Registry.OrphanForever | back_end/src/server/http_server_host.cpp:211-252 | an entry no open connection goes by is never removed and its host is never announced again |
| Registry.ClosedConnectionFound | back_end/src/server/http_server_host.cpp:211-252 | a run of four events after which the lookup returns a closed connection |
| Registry.DuplicateKeepsOwner | back_end/src/server/inner/inner_tcp_server.cpp:303-310 | turning away a second connection closes it and leaves the owner open, in the map, and its notices unchanged |
| Registry.RegisteredAnswered | back_end/src/server/inner/inner_tcp_server.cpp:276-321 | only a connection that has answered since it was accepted is registered |
| Registry.AuthValid | back_end/src/infos.cpp:34-36 | a login is valid if and only if its text has both colons, a login name and a host the library accepts, and is then taken over as it stands |
| Registry.AnswerVerdict | back_end/src/server/inner/inner_tcp_server.cpp:276-330 | the first message is ok if and only if the user is valid and known and the host is free; the device is registered if and only if that one message goes out and is written; every refusal is one fail message with the first cause, a failed write an ok and a fail |
| Registry.OtherVerdicts | back_end/src/server/inner/inner_tcp_server.cpp:256-345 | pings and all other responses leave the registry alone, with the messages of the protocol |
| Registry.ToldTheTruth | back_end/src/server/inner/inner_tcp_server.cpp:312-330 | one ok message goes out if and only if the connection is registered for the host of its login afterwards; any other answer ends with the connection closed |
| Registry.QuestionRead | back_end/src/server/inner/inner_tcp_server.cpp:187-191 | the question reaches the device as a request with that one word |
| Registry.KeyedStep | back_end/src/server/http_server_host.cpp:211-239 | every event keeps registered connections under their host |
| Registry.WellToldStep | back_end/src/server/inner/inner_tcp_server.cpp:193-209 | every event keeps the notices alternating |
| Registry.HttpServerHost.FindInnerConnectionByHost | back_end/src/server/http_server_host.cpp:245-252 | the connection of the host, null when there is none |
| Registry.HttpServerHost.RegisterInnerConnectionByUser | back_end/src/server/http_server_host.cpp:227-239 | sets the connection host info and its map entry |
| Registry.HttpServerHost.UnRegisterInnerConnectionByHost | back_end/src/server/http_server_host.cpp:211-225 | erases the entry of a registered connection and tells whether it was one |
| Registry.InnerServerHandlerHost.Accepted | back_end/src/server/inner/inner_tcp_server.cpp:187-191 | the new connection is asked who it is; the state follows the history |
| Registry.InnerServerHandlerHost.Closed | back_end/src/server/inner/inner_tcp_server.cpp:193-209 | a registered connection loses its entry and its disconnection is published |
| Registry.InnerServerHandlerHost.HandleInnerResponceCommand | back_end/src/server/inner/inner_tcp_server.cpp:249-352 | the approve messages are those of the protocol and the state is again the one the longer history leads to |
| Registry.InnerServerHandlerHost.WhoAreYouAnswered | back_end/src/server/inner/inner_tcp_server.cpp:277-330 | each refusal closes the connection, success registers and publishes |
| Registry.InnerServerHandlerHost.Lookup | back_end/src/server/http_server_host.cpp:245-252 | the lookup returns null only when no registered connection has the host; as long as no connection was registered twice, what it returns is an open connection registered for that host |
| WebSocket.ParsesClientFrame | back_end/src/websocket/websocket_server_handler.cpp:54-124 | every masked final frame with 1 to 65535 payload bytes parses to its opcode and payload, and only payload bytes of the buffer change |
| WebSocket.PrefixIncomplete | back_end/src/websocket/websocket_server_handler.cpp:91-124 | every non-empty proper prefix of such a frame is incomplete and left untouched |
| WebSocket.EmptyFrameEarly | back_end/src/websocket/websocket_server_handler.cpp:106-121 | a frame without payload counts as received from its second byte on |
| WebSocket.ServerRoundTrip | back_end/src/websocket/websocket_server_handler.cpp:126-154 | the frame built from opcode and payload decodes, as one final unmasked frame with the shortest length form, to that opcode and payload |
| WebSocket.ServerFrameFits | back_end/src/websocket/websocket_server_handler.cpp:186-196 | a built frame fits the answer buffer if and only if the payload has at most 65531 bytes |
| WebSocket.AnswerFits | back_end/src/websocket/websocket_server_handler.cpp:186-205 | no request of at most 65535 bytes leads to an answer that does not fit |
| WebSocket.Echo | back_end/src/websocket/websocket_server_handler.cpp:186-205 | a text or binary frame comes back with the same opcode and payload |
| WebSocket.GetPayloadLength | back_end/src/websocket/websocket_server_handler.cpp:54-89 | payload length, extra bytes and frame type of the three length forms |
| WebSocket.ErrorFrames | back_end/src/websocket/websocket_server_handler.cpp:91-104 | input is in error if and only if it has two bytes and a reserved bit, no FIN, no mask, an unknown opcode, or the 64-bit length form in full |
| WebSocket.IncompleteFrames | back_end/src/websocket/websocket_server_handler.cpp:91-124 | it is incomplete if and only if the header is missing, or good with length field, key or payload not all there |
| WebSocket.TextIsHttp | back_end/src/websocket/websocket_server_handler.cpp:169-170 | every request of two bytes or more that begins below 0x80, as every HTTP request does, is handed to the HTTP handler |
| WebSocket.Answers | back_end/src/websocket/websocket_server_handler.cpp:164-208 | which of the five actions the handler takes, by the bytes of the input |
| WebSocket.CloseFrame | back_end/src/websocket/websocket_server_handler.cpp:183-185 | a masked final close frame closes the connection, with or without payload |
| WebSocket.FrameBytes | back_end/src/websocket/websocket_server_handler.cpp:126-154 | the frames byte by byte: flags and opcode, the two length forms in network order, the key, and each payload byte under its key byte |
| WebSocket.ParseInputFrame | back_end/src/websocket/websocket_server_handler.cpp:91-124 | result of the specification, payload unmasked in place, everything else as it was |
| WebSocket.UnmaskInPlace | back_end/src/websocket/websocket_server_handler.cpp:116-118 | the XOR loop unmasks exactly the payload bytes |
| WebSocket.MakeFrame | back_end/src/websocket/websocket_server_handler.cpp:126-154 | the buffer starts with exactly the frame, of exactly the returned length |
| WebSocket.ProcessReceived | back_end/src/websocket/websocket_server_handler.cpp:166-208 | the action and the bytes sent for each frame type |

## Left out

- Decimal.ReadLongLong: asks for a text on which the accumulator does not overflow, because overflow is undefined in C.
- Reader.ReadStream: asks that the stream does not lead the code to overflow or to a store through a null array, both undefined in C.
- Decimal.Ll2Str: does not take the smallest 64-bit integer, whose negation overflows in the code.
- Reader.RedisReader.Feed: asks that the bytes in the buffer stay countable by an `int`, because `seekNewline` and `readLine` count them in one.
- Format.FormatCommand: keeps the word under construction and the words as values, not as sds buffers and a reallocated vector, and does not model the conversions handed to printf, nor the format error they can cause.
- SdsString.Sds.CatFmt: models literals and `%s` only, not `%S`, `%i`, `%I`, `%u`, `%U` or a format that ends in a lone `%`; the text stays countable by the `int` write index.
- SdsString.Sds.IncrLen: takes the assertion of the code, and for type 5 strings the room in the buffer, as preconditions; the write would be outside otherwise.
- SdsString.Sds.MakeRoomFor: asks that the grown allocation does not wrap `size_t`; so do the operations that call it.
- SdsString.Sds.Range: asks that the length fits `int`, as the code compares it as one, and does not model the overflow of `end - start + 1` at the largest `int`.
- SdsQuote.SplitArgs: keeps the token under construction and the token list as values, not as sds buffers and a reallocated vector.
- Messages.HandleData: asks for a terminator in the receive buffer, as after any read shorter than 1024 bytes, and handles one message per read, as the code does.
- Messages.RequestRoundTrip: asks for ids and words without NUL, as C strings are.
- Messages.WhoAreYouAnswer: is about login texts without NUL, for the same reason.
- Callbacks.CommandSeqParser.ProcessRequest: does not model a callback that changes the list while it is being walked.
- Dispatch.HandleInnerData: stops where the handlers of the three kinds begin; a number above 2, on which the code asserts, and a failed write of the answer, which is only logged, are not modelled.
- Dispatch.HandleMessage: asks that a request to a connected device is shorter than 1024 bytes, because the code writes as many bytes as the uncut text has; does not model the null dereference on a command that cannot be tokenized; what the library prints for the id of a failure is an input.
- Registry.InnerServerHandlerHost.HandleInnerResponceCommand: takes the verdicts of the host parser, the user storage and the write as inputs, and asks for at least one token; a failed publication is only logged and not modelled.
- Registry.InnerServerHandlerHost.Closed: is called by `Close`, as the event loop of the external `common` library is assumed to do.
- WebSocket.ProcessReceived: does not model the debug assertion that nothing follows the frame, nor sending; a frame type without a branch (ping, pong, an incomplete frame in a part-filled buffer) is the outcome `NotReached`.
- Memory: allocation succeeds; freeing is not modelled.
- Error strings of the reader, reply lengths kept next to reply strings, and user data passed through.
- `redisFormatSdsCommandArgv`, which uses a format letter that this repository's `sdscatfmt` does not know.
- Sockets, blocking reads and writes, timeouts, reconnection, threads and the ping timer; each handler call is one step.
- HTTP, streams, the upgrade handshake with SHA-1 and base64, relay loops, JSON and ini files, and the front end apart from `parse_command_out`.
- Hex encoding is the standard lower-case one; host and port texts are interpreted by the `common` library, which is not part of this model.
- The front end publishes whatever text it is given; its own well-formedness is not modelled.
