# NP_Final chat relay — routing core and counted receive loop

This project models the sequential core of a socket chat relay (the `NP_Final`
ChatServer and ChatClient) and proves what it does.

**Server.** A server keeps an ordered registry of client handlers. It routes each
command line a client sends:

- `/chat`, `/help`, `/exit`, `/list`, `/dm` and `/file` are recognised by prefix;
- `/dm` and `/file` take their arguments from `split(" ", 3)`;
- a `/file` to a named target reads a Y/N answer from the requester's next input
  line, so that line is not itself dispatched as a command.

It also broadcasts a join notice and the client list when a client connects, and a
departure notice and the new list when a client leaves. Sending is modelled as
appending `(recipient, text)` messages to an outbox. What each client receives is
read back with `Inbox`, so exactly-once delivery, sender-only replies and "nobody
else" are stated directly.

**Client.** A client handles a server line by splitting it on single spaces. It
echoes the line unless its first token is exactly `/file`. A file request of the
form `/file <ip> <name> <size>` prints a notice and then runs the counted receive
loop.

**Receive loop.** The counted receive loop appears in both the client and the
server. Each iteration reads one value `v` from the character reader, writes `v`
bytes of an unfilled 4096-byte buffer to the file, and adds `v` to a `long` total.
The loop ends when the total reaches the declared size or the reader returns -1.
The total therefore grows by each character's code, not by one per character. The
model keeps this behaviour exactly as written:

- the `long` wrap-around of the total is explicit;
- a value above 4096 makes `fos.write` throw, which the model records as a
  separate way for the loop to end.

Modules:

- `JavaText` (`java_text.dfy`): the Java library behaviour the code depends on.
  - `String.indexOf`.
  - `split(" ", 3)` and `split(" ")`, including Java's rule that trailing empty
    fields are dropped.
  - `Long.parseLong` and decimal printing of a `long`.
  - `long` wrap-around.
- `ServerRouting` (`server_routing.dfy`): the server's routing as functions over
  values, and the lemmas about them. A handler is a class, so registry membership
  and `ArrayList.remove(Object)` go by object identity, as in Java.
- `ChatServerModel` (`chat_server.dfy`): a `ChatServer` class with the fields
  `clients`, `outbox` and `log`, and the server's methods with their loops. Each
  method is proved to append exactly what `ServerRouting` specifies.
- `FileReceive` (`file_receive.dfy`): the receive loop as a method and as a
  function, and its characterisation.
- `ChatClientModel` (`chat_client.dfy`): `handleServerCommand` and
  `handleFileTransferRequest`.

Inputs the source gets from its environment become parameters:

- **The clock.** One `time` string per operation.
- **The file system.** `fs` maps a path to `Missing` or `Regular(name, length)`.
  `opens` says whether the client's `FileOutputStream` can be created.
- **The client's input.** A session is the list of lines the client sends. A
  `/file` handshake takes its answers from the lines that follow it, and running out
  of lines while an answer is due is the null answer.
- **The reader's values.** They are a sequence of `read()` results ending in -1.

Behaviour of the code that the model keeps as written:

- A command is chosen by `startsWith`, not by a first word: `/chatter` is a
  `/chat`, and `/dmx a b` is a `/dm`.
- Every line is logged, not only recognised commands.
- Exactly `/chat` makes `substring(6)` throw, which ends the session.
- The handshake answer is read from the requester's own reader (ChatServer.java:189),
  not from the target's.
- A missing answer (`readLine` returns null) throws and ends the session.
- When the first client with the target address is the requester itself, a "Y"
  runs `sendFile` again on the same handler (ChatServer.java:194). It offers the
  file again and reads the next line as a new answer. Each accepting level sends its
  completion notice only after the inner call returns.

Two further facts about the source:

- The client's `receiveMessages` prints every line it reads and never calls
  `handleServerCommand`.
- The server sends no message that begins with `/file`. The help text, though,
  is one message with embedded newlines (ChatServer.java:119-125). Its last line,
  `/file [IP] [파일경로] - 파일 전송`, arrives at the client as a line of its own.
  If the client routed that line, it would split on single spaces into six
  tokens: `/file`, `[IP]`, `[파일경로]`, `-`, `파일` and `전송`. The size token is
  then `-` (ChatClient.java:83), and `Long.parseLong("-")` would throw.

The client handler is modelled as written all the same.

## Model

| member | source | states |
|---|---|---|
| JavaText.WrapLong | NP_Final/src/ChatClient.java:108 | `totalBytesRead += bytesRead` yields a `long`; the exact sum when it fits, the sum minus 2^64 just past the top |
| JavaText.IndexOf | NP_Final/src/ChatClient.java:60 | None exactly when the character is absent; otherwise the position of its first occurrence |
| JavaText.SplitLimit | NP_Final/src/ChatServer.java:133 | `split(" ", 3)` gives between one and three parts |
| JavaText.SplitLimitJoin | NP_Final/src/ChatServer.java:133 | the parts of `split(sep, limit)` joined with `sep` give the line back |
| JavaText.SplitLimitOfFree | NP_Final/src/ChatServer.java:133 | a limited split takes a separator-free first field off whole and goes on after its separator |
| JavaText.SplitLimitThreeOfJoin | NP_Final/src/ChatServer.java:133-134 | `split(" ", 3)` of two space-free fields and a rest joined by spaces gives back exactly those three |
| JavaText.SplitLimitFields | NP_Final/src/ChatServer.java:142 | only the last part of a limited split can hold the separator, and it holds none when fewer parts than the limit came out |
| JavaText.DropTrailingEmpty | NP_Final/src/ChatClient.java:60 | `split` with limit 0 keeps a prefix of the fields, drops only empty ones, and ends on a non-empty field |
| JavaText.FieldsJoin | NP_Final/src/ChatClient.java:60 | the fields of a string, split at every separator, join back to it |
| JavaText.FieldsFree | NP_Final/src/ChatClient.java:60 | no field of a string split at every separator holds the separator |
| JavaText.FieldsOfJoin | NP_Final/src/ChatClient.java:60 | separator-free fields are recovered exactly from their join |
| JavaText.SplitEmptyIff | NP_Final/src/ChatClient.java:60-61 | `split(" ")` yields no tokens exactly for a non-empty line of spaces only |
| JavaText.SplitTokens | NP_Final/src/ChatClient.java:60 | no token of `split(" ")` holds a space, and the last one is non-empty when the line has a space |
| JavaText.Split | NP_Final/src/ChatClient.java:60 | no token of `split(" ")` holds the separator |
| JavaText.NatToDecimal | NP_Final/src/ChatServer.java:174 | the decimal text of `file.length()` is all digits, denotes that number, and has no leading zero unless it is "0" |
| JavaText.IntToDecimal | NP_Final/src/ChatClient.java:85 | the printed size starts with '-' exactly when it is negative; the digits after any sign denote its magnitude and have no leading zero unless the magnitude is 0 |
| JavaText.ParseLong | NP_Final/src/ChatClient.java:83 | `Long.parseLong` succeeds exactly on an optional sign followed by at least one digit whose value is in the `long` range, and then returns that value, negated after a '-'; otherwise it throws |
| JavaText.ParseLongOfDecimal | NP_Final/src/ChatClient.java:83-85 | every `long` printed in decimal parses back to itself |
| ServerRouting.InboxAppend | NP_Final/src/ChatServer.java:103-111 | what a client receives from two batches of sends is what it receives from each, in order |
| ServerRouting.InboxOfOthers | NP_Final/src/ChatServer.java:103-111 | a client that no message is addressed to receives nothing |
| ServerRouting.InboxSendAll | NP_Final/src/ChatServer.java:69-71 | sending one text to a registry without repeats reaches each member once, in order, and nobody else |
| ServerRouting.Broadcast | NP_Final/src/ChatServer.java:54-58 | the recipients are the registry in order, the sender included, and each receives `[ip] [time] text` |
| ServerRouting.BroadcastReachesEachOnce | NP_Final/src/ChatServer.java:54-58 | every registered client, the sender included, receives `[ip] [time] text` exactly once; the recipients are the registry in order |
| ServerRouting.IpLinesSnoc | NP_Final/src/ChatServer.java:66-68 | appending a client appends its address and a newline to the list text |
| ServerRouting.IpLinesJoin | NP_Final/src/ChatServer.java:65-68 | the address lines are the addresses joined by newlines, with a trailing newline |
| ServerRouting.ClientListLines | NP_Final/src/ChatServer.java:64-68 | read back line by line, the list is the title, then each registered address in registry order, then nothing |
| ServerRouting.ListBroadcast | NP_Final/src/ChatServer.java:64-72 | the recipients are the registry in order, and each receives the same list text |
| ServerRouting.FirstWithIp | NP_Final/src/ChatServer.java:156-157 | the scan finds the first registry position with the address, and finds none exactly when no client has it |
| ServerRouting.DirectMessage | NP_Final/src/ChatServer.java:155-163 | one message: to the first client with the target address, or else a not-found reply to the sender |
| ServerRouting.Accepts | NP_Final/src/ChatServer.java:193 | `equalsIgnoreCase("Y")` holds exactly for a one-letter answer that is Y or y |
| ServerRouting.Others | NP_Final/src/ChatServer.java:175-176 | the clients an open offer goes to never include the requester, are all registered, and are no more than the registry |
| ServerRouting.FileOffer | NP_Final/src/ChatServer.java:165-203 | never reads more answer lines than there are; a missing file gets one not-found reply and no offer; a non-empty target that no client has gets one peer-not-found reply; lines are read only for an existing file and a registered non-empty target; the offer ends the session only with the null-answer fault, after using up every line |
| ServerRouting.OthersMembers | NP_Final/src/ChatServer.java:175-176 | the clients other than the requester are exactly the registered ones that are not the requester, each once |
| ServerRouting.OpenOfferReachesOthers | NP_Final/src/ChatServer.java:172-180 | with an empty target the offer (ip, name, length) reaches every other registered client exactly once, and the requester gets nothing |
| ServerRouting.TargetedOfferAnswers | NP_Final/src/ChatServer.java:183-199 | with a named target the first client with that address gets the offer; the requester then gets completion for "Y"/"y" and otherwise a rejection naming the target |
| ServerRouting.SelfOfferChain | NP_Final/src/ChatServer.java:183-199 | a requester that is its own target and answers "Y" `n` times is offered the file `n + 1` times; a further non-"Y" answer gets the rejection and then `n` completion notices, while running out of lines ends the session with the null-answer fault |
| ServerRouting.FileOfferRecipients | NP_Final/src/ChatServer.java:165-203 | every message of a file offer goes to a registered client or to the requester |
| ServerRouting.SelfTargetOffer | NP_Final/src/ChatServer.java:183-199 | a client at "a", alone in the registry, offering "f" to "a" and answering "Y", "Y", "/exit" gets three offers, then the rejection, then two completions, and three lines are read |
| ServerRouting.FileOfferReadsAnswer | NP_Final/src/ChatServer.java:165-203 | an answer line is read exactly when the file exists, the non-empty target is registered and a line is left; the offer ends the session exactly when the lines run out while an answer is due, which for a requester that is its own target means every remaining line said "Y"/"y"; an offer that reads nothing sends something unless nobody else is registered |
| ServerRouting.SplitThree | NP_Final/src/ChatServer.java:133-134 | `split(" ", 3)` has three parts exactly when the line holds two spaces; the first two are then space-free and spell the line with the third |
| ServerRouting.NoSpaceCount | NP_Final/src/ChatServer.java:133-134 | proof step: a part without a space contributes no space to the count |
| ServerRouting.TwoFieldsCount | NP_Final/src/ChatServer.java:133-134 | proof step: two space-free parts joined by a space hold exactly one space |
| ServerRouting.ThreeFieldsCount | NP_Final/src/ChatServer.java:133-134 | proof step: three parts joined by spaces hold at least two spaces |
| ServerRouting.ParseCommand | NP_Final/src/ChatServer.java:115-150 | each command is chosen exactly by its prefix; bare `/chat` is the throwing case; `/dm` and `/file` are malformed exactly when the line has fewer than two spaces; anything else is unknown |
| ServerRouting.Route | NP_Final/src/ChatServer.java:113-153 | only `/exit` closes the session; only bare `/chat` throws the substring error; only a well-formed `/file` reads an answer line, and it continues only if there was one |
| ServerRouting.Execute | NP_Final/src/ChatServer.java:115-152 | the same per recognised command: closing exactly for `/exit`, the substring error exactly for bare `/chat`, answers read only by a file offer |
| ServerRouting.PrefixesExclusive | NP_Final/src/ChatServer.java:115-141 | no line starts with two command words, so the order of the tests decides nothing |
| ServerRouting.RouteByPrefix | NP_Final/src/ChatServer.java:113-153 | proof step: parsing then executing equals testing the six prefixes in source order, the first match deciding the action, with `split(" ", 3)` giving the `/dm` and `/file` arguments |
| ServerRouting.SenderOnlyReplies | NP_Final/src/ChatServer.java:118-151 | an unknown line, `/help` and the malformed `/dm` and `/file` each send exactly one reply, to the sender only |
| ServerRouting.ChatRoute | NP_Final/src/ChatServer.java:115-117 | `/chat` followed by text broadcasts the text from the seventh character on to every registered client once (characters counted as Unicode scalars, see "## Left out"); bare `/chat` sends nothing and ends the session |
| ServerRouting.DirectRoute | NP_Final/src/ChatServer.java:132-137 | a well-formed `/dm` sends exactly one message: to the first client with the address, or a not-found reply |
| ServerRouting.RouteRecipientsRegistered | NP_Final/src/ChatServer.java:113-153 | every message a command sends goes to a registered client or to the sender |
| ServerRouting.ExecuteRecipientsRegistered | NP_Final/src/ChatServer.java:113-153 | the same, for each recognised command |
| ServerRouting.OthersSubset | NP_Final/src/ChatServer.java:175-176 | an open offer goes only to registered clients |
| ServerRouting.ArrivalReachesNewcomer | NP_Final/src/ChatServer.java:42-45 | because the newcomer is registered first, it and every earlier client receive the join notice and then the list, once each |
| ServerRouting.Arrival | NP_Final/src/ChatServer.java:42-45 | every registered client, the newcomer included, receives two messages: first round the join notice, second round the list |
| ServerRouting.RemoveFirstMembers | NP_Final/src/ChatServer.java:257 | `clients.remove(this)` keeps exactly the other clients |
| ServerRouting.DistinctTail | NP_Final/src/ChatServer.java:257 | a registry without repeats stays without repeats after its first handler, and does not hold that handler again |
| ServerRouting.RemoveFirstDistinct | NP_Final/src/ChatServer.java:257 | after the removal each remaining client is still there once |
| ServerRouting.RemoveFirstAbsent | NP_Final/src/ChatServer.java:257 | removing a handler that is not registered changes nothing |
| ServerRouting.RemoveFirstAt | NP_Final/src/ChatServer.java:257 | the removal deletes exactly the first position holding the handler and keeps the order of the rest |
| ServerRouting.RemoveFirst | NP_Final/src/ChatServer.java:257 | `clients.remove(this)` shortens the registry by one exactly when the handler is registered |
| ServerRouting.DepartureSkipsLeaver | NP_Final/src/ChatServer.java:256-259 | the departure notice and the new list reach each remaining client once and never the client that left |
| ServerRouting.Departure | NP_Final/src/ChatServer.java:258-259 | every remaining client receives two messages: first round the leave notice, second round the new list |
| ServerRouting.Resume | NP_Final/src/ChatServer.java:250-251 | the next line `run` reads comes after the current line and any answers it took, and no further than the end of the input |
| ServerRouting.Session | NP_Final/src/ChatServer.java:247-252 | the read loop dispatches its first line and never more lines than it was sent |
| ServerRouting.SessionStep | NP_Final/src/ChatServer.java:250-251 | proof step: a session is its first line's step, then, if that line continued, the session from the line after its answers |
| ServerRouting.PlainLineContinues | NP_Final/src/ChatServer.java:113-153 | a line that is not `/exit`, not `/file` and not bare `/chat` continues the session and reads no answer |
| ServerRouting.SessionRecipients | NP_Final/src/ChatServer.java:247-252 | a session sends only to registered clients and to its own client |
| ServerRouting.SessionDispatchesAll | NP_Final/src/ChatServer.java:250-251 | when no line starts with `/exit` or `/file` and none is exactly `/chat`, every line is dispatched, in order |
| ServerRouting.SelfTargetRoute | NP_Final/src/ChatServer.java:141-147 | `/file a f` is routed to the file offer of path "f" to address "a" |
| ServerRouting.SelfTargetSession | NP_Final/src/ChatServer.java:247-252 | in that session the three lines after `/file a f` are all taken as answers: only `/file a f` is dispatched, and `/exit` never sends its goodbye |
| ServerRouting.ChainCons | NP_Final/src/ChatServer.java:250-251 | proof step: a position linked to the start of a chain extends the chain |
| ServerRouting.ScheduleCons | NP_Final/src/ChatServer.java:250-251 | proof step: a line that goes on to the start of a schedule extends it |
| ServerRouting.PositionsCons | NP_Final/src/ChatServer.java:250-251 | proof step: one more position adds its line in front of the dispatched lines |
| ServerRouting.SessionEnds | NP_Final/src/ChatServer.java:250-251 | proof step: a line that closes, crashes or uses up the input is the last one dispatched |
| ServerRouting.SessionContinues | NP_Final/src/ChatServer.java:250-251 | proof step: a line that does not end the session is followed by the session from the line after its answers |
| ServerRouting.SessionScheduleFrom | NP_Final/src/ChatServer.java:247-252 | from any position, the dispatched lines are those at the positions of a schedule: each dispatched line but the last continues the session to the line after its answers, and the last one closes it, crashes it or used up the input |
| ServerRouting.SessionSchedule | NP_Final/src/ChatServer.java:247-252 | the same for a whole session: the lines `run` dispatches are the first line, then each line after the previous one's answers while the session continues, and the last one ends it or leaves no input |
| ChatServerModel.BuildClientList | NP_Final/src/ChatServer.java:64-68 | the `StringBuilder` loop builds exactly the list text: the header, then each address and a newline |
| ChatServerModel.ChatServer.constructor | NP_Final/src/ChatServer.java:35 | the server starts with an empty registry, outbox and log |
| ChatServerModel.ChatServer.SendMessage | NP_Final/src/ChatServer.java:103-111 | appends one message to the outbox |
| ChatServerModel.ChatServer.BroadcastMessage | NP_Final/src/ChatServer.java:54-58 | the per-client loop appends exactly the broadcast |
| ChatServerModel.ChatServer.BroadcastClientList | NP_Final/src/ChatServer.java:64-72 | builds the list once and appends it once per registered client |
| ChatServerModel.ChatServer.SendDirectMessage | NP_Final/src/ChatServer.java:155-163 | the scan with its early return appends exactly the direct message, or the not-found reply |
| ChatServerModel.ChatServer.OfferToOthers | NP_Final/src/ChatServer.java:172-180 | the empty-target loop appends the offer once for every registered client except the requester, in registry order |
| ChatServerModel.ChatServer.SendFile | NP_Final/src/ChatServer.java:165-203 | the file check, the open-offer loop and the targeted loop, calling itself again for a requester that is its own target, append exactly the offer's messages and report how many answer lines were read and whether the session continues |
| ChatServerModel.ChatServer.HandleCommand | NP_Final/src/ChatServer.java:113-153 | logs the line, then appends exactly the routed messages and reports the outcome and how many following lines a `/file` handshake took as answers |
| ChatServerModel.ChatServer.Connect | NP_Final/src/ChatServer.java:39-45 | registers the handler at the end, appends its arrival messages, logs the connection, and keeps the registry free of repeats |
| ChatServerModel.ChatServer.Disconnect | NP_Final/src/ChatServer.java:256-259 | removes the handler and appends the departure messages for the clients that remain |
| ChatServerModel.ChatServer.Run | NP_Final/src/ChatServer.java:247-260 | the read loop dispatches each line after the previous line's answers, appends exactly the session's messages and one log entry per dispatched line, then the departure; the handler ends up unregistered (one time and one file-system view per session, see "## Left out") |
| ChatServerModel.PendingAdvance | NP_Final/src/ChatServer.java:250-251 | handling one more line moves its messages and log entry from what is pending to what is done |
| FileReceive.ReceiveFile | NP_Final/src/ChatClient.java:96-111 | the loop as written computes exactly the receive specification |
| FileReceive.ReceiveFrom | NP_Final/src/ChatClient.java:102-108 | from any read on, the loop consumes no more than the stream and never un-writes; it stops for the size exactly when the total has reached it; an end-of-stream or overrun stop is caused by the last value read |
| FileReceive.Receive | NP_Final/src/ChatClient.java:96-108 | from a zero total: stops for the size exactly when the total reached it, and any other stop has read at least one value |
| FileReceive.WrapLongAdd | NP_Final/src/ChatClient.java:108 | wrapping after every addition equals wrapping the final sum |
| FileReceive.ModShift | NP_Final/src/ChatClient.java:108 | removing whole multiples of 2^64 leaves the wrapped value unchanged |
| FileReceive.AccumulateOne | NP_Final/src/ChatClient.java:107-108 | one more value extends the written sum and the wrapped total by itself |
| FileReceive.ReceiveFromStops | NP_Final/src/ChatClient.java:102-107 | the loop stops at the first -1, at the first value above 4096, or once the total reaches the size |
| FileReceive.ReceiveFromSums | NP_Final/src/ChatClient.java:107-108 | the bytes written are the sum of the values added, each value counting as itself |
| FileReceive.ReceiveFromWraps | NP_Final/src/ChatClient.java:108 | a total that starts as the byte count wrapped to a `long` stays so to the end of the loop |
| FileReceive.ReceiveFromBelow | NP_Final/src/ChatClient.java:102-103 | a value is read only while the running total is below the size |
| FileReceive.ReceiveMeaning | NP_Final/src/ChatClient.java:102-108 | one read per iteration and never past the end; no reads exactly when size <= 0; the total is the wrapped sum of the values, not their count; and the loop stops exactly at the first stopping point |
| FileReceive.PrefixSumsFit | NP_Final/src/ChatClient.java:100-108 | a total that stays below a size leaving room for one buffer never leaves the `long` range |
| FileReceive.SumGrows | NP_Final/src/ChatClient.java:108 | the running sum of non-negative values never decreases |
| FileReceive.ReceiveNoWrap | NP_Final/src/ChatClient.java:100-108 | unless the size is within 4096 of the largest `long`, the total never wraps: it equals the bytes written and only grows |
| FileReceive.OneCharacterCountsAsItsCode | NP_Final/src/ChatClient.java:103-108 | reading the single character 'A' (code 65) satisfies a declared size of 65 |
| FileReceive.ServerReceiveReplies | NP_Final/src/ChatServer.java:220-243 | the server's copy replies once: completion when the file opened, an error notice when it did not; it replies nothing exactly when a value above 4096 is met while the total is still below the size |
| FileReceive.ServerReceive | NP_Final/src/ChatServer.java:220-243 | at most one reply: the error notice when the file does not open, otherwise the completion notice or nothing |
| ChatClientModel.HandleFileTransferRequest | NP_Final/src/ChatClient.java:75-92 | fewer than four tokens prints only the format error and receives nothing; the loop runs only for an opened file and a parsed size |
| ChatClientModel.HandleServerCommand | NP_Final/src/ChatClient.java:59-73 | prints at most two lines, receives only into an opened file, and ends with the write overrun exactly when the receive stopped on one |
| ChatClientModel.FirstWord | NP_Final/src/ChatClient.java:60-61 | the text before the first space is a space-free prefix of the line, followed by a space or the end |
| ChatClientModel.SplitFirstToken | NP_Final/src/ChatClient.java:60-61 | `commandArgs[0]` is the text before the first space, and it exists whenever that text is non-empty |
| ChatClientModel.FileCommandIff | NP_Final/src/ChatClient.java:60-66 | a line takes the file path exactly when it begins with `/file` followed by a space or by nothing |
| ChatClientModel.ServerLineRouting | NP_Final/src/ChatClient.java:59-72 | a line of spaces makes `commandArgs[0]` throw; a `/file` line goes to the file handler; every other line is printed unchanged and nothing is received |
| ChatClientModel.RequestFields | NP_Final/src/ChatClient.java:81-85 | with four or more tokens the size is token 3 read as a `long`; an unparsable size throws before anything is printed; the notice names tokens 1 and 2; extra tokens change nothing |
| ChatClientModel.CompletionNotice | NP_Final/src/ChatClient.java:85-91 | after a well-formed request the completion notice follows the receiving notice whatever the receive did, unless an overrun escaped; the loop ran exactly when the file opened |
| ChatClientModel.RequestRoundTrip | NP_Final/src/ChatClient.java:60-88 | the line `/file <ip> <name> <size>` is read back as that sender, that name and that size for space-free ip and name and any `long` size, and the loop runs on that size |
| ChatClientModel.RequestLineSplits | NP_Final/src/ChatClient.java:60-61 | a request line built from four space-free fields, the last non-empty, splits on single spaces back into exactly those four fields |
| ChatClientModel.DecimalHasNoSpace | NP_Final/src/ChatClient.java:85 | a printed size has no space in it, so it stays one token |

## Left out

- Sockets, threads and the unsynchronised sharing of the registry between handler threads (ChatServer.java:39-42, 84). Every operation runs atomically and in sequence. A handler's thread starts before the handler is registered, and this interleaving is not captured.
- `sendMessage`'s write, flush and swallowed IOException. A send is one append to the outbox.
- `logMessage`'s file appends and `getCurrentTime`'s formatting. The log is a list of (ip, text) entries and the time is one string per operation.
- ChatServerModel.ChatServer.BroadcastMessage: the source reads the clock once per recipient, while the model uses one time for the whole broadcast.
- ChatServerModel.ChatServer.Run: a whole session, and `ServerRouting.Session` with it, uses one `time` and one file-system view `fs` for every line and for the departure. The source reads the clock at each broadcast (ChatServer.java:56, 258) and checks the file system at each `/file` (ChatServer.java:167). A session that crosses a minute boundary, or a file that appears partway through a session, is therefore not represented.
- ServerRouting.ParseCommand: strings are sequences of Unicode scalar values, but Java's `substring(6)` (ChatServer.java:116) counts UTF-16 code units. The two differ when the sixth code unit is half of a surrogate pair. For `/chat😀hi` the source broadcasts a lone low surrogate followed by `hi`, and the model broadcasts `hi`. `ServerRouting.ChatRoute` inherits this, as stated on its own line below.
- ServerRouting.ChatRoute: the broadcast text is the line from its seventh Unicode scalar on, while the source cuts after the sixth UTF-16 code unit (ChatServer.java:116). The two differ for a line whose sixth code unit is half of a surrogate pair, as described for `ServerRouting.ParseCommand` above.
- ServerRouting.FileOffer: after a "Y" answer for a target that is another client, the nested `client.sendFile(targetIP, filePath)` (ChatServer.java:194) runs on that client's handler. It offers the file to that client again and waits on that client's reader, which that client's own thread also reads. The model leaves that inner call out and sends the completion notice at once. The case where the target is the requester itself is modelled.
- ChatServerModel.ChatServer.SendFile: it leaves out the same nested call on another client's handler as `ServerRouting.FileOffer` (ChatServer.java:194). After a "Y" from that client it sends the completion notice at once.
- ServerRouting.Session: it uses one `time` and one file-system view `fs` for every line, as described for `ChatServerModel.ChatServer.Run` above. It also inherits `ServerRouting.FileOffer`'s gap: no line is read on another client's handler after a "Y" for that client.
- ChatServerModel.ChatServer.Run: it inherits the same `ServerRouting.FileOffer` gap through `ServerRouting.Session`. A session never waits on another client's reader.
- ServerRouting.FileOffer: an IOException while reading the answer (ChatServer.java:190-191) is not modelled. A null answer is modelled.
- `File.exists`, `isFile`, `getName` and `length`. These become the `fs` parameter.
- The client's file path built with `File.pathSeparator` and the bytes the `FileOutputStream` receives. Whether the file opens is the `opens` parameter. Only the number of bytes written is kept, and those bytes are all zero.
- FileReceive.Receive: an IOException from `read()` during the loop is not modelled, and every stream ends with -1. A connection that never ends is not represented.
- JavaText.ParseLong: only ASCII digits are accepted. `Long.parseLong` also accepts other Unicode decimal digits.
- The server's `handleFileTransferRequest` (ChatServer.java:205-217) is never called and is not modelled. Its `receiveFile` loop is the same loop as the client's and is modelled by `FileReceive.ServerReceive`.
- The client's `connect`, `handleUserInput`, `receiveMessages` and `close`, and the server's `main`, `start` socket handling and `close`. These are console and network I/O.
