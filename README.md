# Multithreaded chat: protocol core in Dafny

This project models the sequential protocol logic of a small Java chat
system: a server that accepts connections, and Swing clients that connect
to it.

**Server.** Each connection runs a `Server` runnable. It does three things:

- It reads a username and checks it against `[a-zA-Z0-9_]+`. An invalid name
  gets `Invalid username. Disconnecting.`.
- A valid name puts the connection's writer on the shared `clients` list and
  the name on the shared `activeUsers` list. The server then broadcasts the
  roster line `USERLIST:` followed by the names joined with `", "`.
- Every line read afterwards is reversed (the "decryption"). It is then
  broadcast as `[time] user: text`.

Each broadcast walks a snapshot of `clients`. A writer whose write fails is
removed, and the loop carries on. `cleanup` runs whatever happens. Once the
connection's writer is open, it removes the writer and the first matching
name, and announces the roster again. When the streams never opened, there is
no writer and `cleanup` changes nothing.

**Client.** The client does the following:

- It picks a username. A cancelled or blank dialog gives `Anonymous`; an
  invalid name exits.
- It connects and writes the name followed by CRLF.
- It sends non-blank input reversed and CRLF-terminated.
- It shows each incoming line. Lines starting with `USERLIST:` are rebuilt as
  `Active Users: a, b, …`.

The Dafny modules follow that structure:

- `JavaString`: the JDK string operations the code relies on. These are
  `StringBuilder.reverse`, `trim`, `startsWith`, `String.join`,
  `String.split` and `BufferedReader.readLine`.
- `Username`: both validators.
- `Codec`: the reversal "encryption" and the CRLF framing.
- `Protocol`: the lines the server writes.
- `ChatServer`:
  - class `Hub` holds the two static lists, plus one log per writer of every
    line it was sent;
  - class `Session` is one runnable, with its `writer` and `username` fields;
  - both come with the list and delivery lemmas.
- `ChatClient`: class `Client`, with its username, exit flag, text field,
  outgoing lines and displayed panels, and the pure helpers beside it.
- `Interop`: lemmas joining the two sides over the wire.

Modelling conventions:

- Writers are numbered as sessions open them.
- A write fails exactly when its writer is in a caller-supplied set
  `failing`, and a failed write delivers nothing.
- The clock reading of each relayed line is a parameter (`times`).
- What a session reads is a parameter:
  - the first `readLine` result (`FirstRead`);
  - the lines after it, until end of stream or a read error.

Behaviour taken from the code where its comments or the obvious reading
differ:

- A connection that fails the handshake still reaches `cleanup` with its
  writer set. `cleanup` therefore broadcasts the unchanged roster to every
  listed writer, and may prune failing writers. The lists stay unchanged
  when no write fails.
- If the first read throws, no rejection line is written. End of stream
  (`null`) is rejected with the line.
- A broadcast write failure removes the writer from `clients` but leaves its
  name in `activeUsers` until that session's own `cleanup`.
- Duplicate names are accepted. The leaving session removes the *first*
  equal entry, so a name that was listed twice moves to the end
  (`RosterAfterSession`).
- `"USERLIST:, "` splits into no field at all. The client then shows
  `Active Users` without its colon and space.

## Model

| member | source | states |
|---|---|---|
| JavaString.Reverse | server/src/main/java/com/server/Server.java:95-98 | the result has the input's length and holds the input's characters in mirrored order |
| JavaString.Trim | server/src/main/java/com/server/Server.java:86 | `s.trim()`: the input without its leading and trailing characters up to U+0020. `TrimStartDrops` and `TrimEndDrops` pin down both halves |
| JavaString.IsBlank | client/src/main/java/com/client/Client.java:217 | `trim().isEmpty()`; `BlankIff` characterises it |
| JavaString.StartsWith | client/src/main/java/com/client/Client.java:271 | `s.startsWith(prefix)`: the input begins with the prefix. `ChatLineIsNotRoster` and `RosterLineShown` apply it to the server's lines |
| JavaString.Join | server/src/main/java/com/server/Server.java:133 | `String.join(sep, xs)`: the fields with `sep` between each pair. `JoinSnoc` shows how it grows, and `SplitJoin` shows that `Split` inverts it |
| JavaString.ReverseInvolution | server/src/main/java/com/server/Server.java:95-109 | reversing twice gives back the input |
| JavaString.TrimStartDrops | server/src/main/java/com/server/Server.java:86 | the leading half of `trim` removes exactly the longest prefix of characters up to U+0020 |
| JavaString.TrimEndDrops | server/src/main/java/com/server/Server.java:86 | the trailing half of `trim` removes exactly the longest suffix of characters up to U+0020 |
| JavaString.BlankIff | client/src/main/java/com/client/Client.java:217 | `trim().isEmpty()` holds exactly when every character is at most U+0020 |
| JavaString.JoinSnoc | server/src/main/java/com/server/Server.java:133 | joining one more field appends the separator and that field |
| JavaString.SplitFields | client/src/main/java/com/client/Client.java:289 | the fields cut at the separators, left to right: at least one, and joining them with the separator gives back the already-read field followed by the input. `SplitFieldsCuts` shows that no field holds the separator |
| JavaString.SplitFieldsCuts | client/src/main/java/com/client/Client.java:289 | the cuts fall at every separator: when no occurrence of the separator starts inside the already-read field, no field of the result holds the separator |
| JavaString.SplitCuts | client/src/main/java/com/client/Client.java:289 | no field that `split` returns holds the separator |
| JavaString.DropTrailingEmpty | client/src/main/java/com/client/Client.java:289 | `split` keeps a prefix of the fields that does not end in an empty field, and drops only empty fields |
| JavaString.Split | client/src/main/java/com/client/Client.java:289 | `s.split(sep)` for a literal separator: `[s]` for the empty string, else the fields with trailing empty ones dropped. `SplitJoin` proves it inverts `Join` |
| JavaString.SplitFieldsSkip | client/src/main/java/com/client/Client.java:289 | a piece holding no first character of the separator goes whole into the current field |
| JavaString.JoinStartsWithFirst | server/src/main/java/com/server/Server.java:133 | a join begins with its first field |
| JavaString.SplitFieldsJoin | client/src/main/java/com/client/Client.java:289 | cutting a join at the separator gives back its fields when they hold no first character of the separator |
| JavaString.SplitJoin | client/src/main/java/com/client/Client.java:289 | `split(sep)` inverts `String.join(sep, …)` on non-empty fields free of the separator's first character |
| JavaString.ScanLine | server/src/main/java/com/server/Server.java:65 | the line read holds no line break. The input is the line, then one terminator (`\n`, `\r\n`, a lone `\r` not followed by `\n`, or none at the very end), then the rest. These clauses fix the result uniquely |
| JavaString.ReadLine | server/src/main/java/com/server/Server.java:65 | `readLine()`: `null` on exhausted input, else the next line and the rest. `ReadLineCrlf` is its partner for CRLF-framed lines |
| JavaString.ReadLineCrlf | server/src/main/java/com/server/Server.java:65 | `readLine` returns a CRLF-terminated line without line breaks whole, and leaves the rest of the input |
| Username.MatchesNamePattern | server/src/main/java/com/server/Server.java:86 | `s.matches("[a-zA-Z0-9_]+")`, also applied at client/src/main/java/com/client/Client.java:82: one class character, then the `+` loop to the end. `MatchesNamePatternIff` is its partner |
| Username.MatchesNamePatternIff | server/src/main/java/com/server/Server.java:86 | the matcher for `[a-zA-Z0-9_]+` accepts exactly the non-empty strings over that class |
| Username.NameIsNotBlank | server/src/main/java/com/server/Server.java:86 | no string matching the pattern is blank after `trim` |
| Username.NotBlankAndMatchesIff | server/src/main/java/com/server/Server.java:86 | the blank test and the pattern together accept exactly the names |
| Username.ServerIsValidUsername | server/src/main/java/com/server/Server.java:85-87 | true exactly when the name is non-null, non-empty and every character is an ASCII letter, digit or `_` |
| Username.ClientIsValidUsername | client/src/main/java/com/client/Client.java:81-83 | true exactly when the string is non-empty and over `[a-zA-Z0-9_]` |
| Username.BlankNamesRejected | server/src/main/java/com/server/Server.java:85-87 | empty and whitespace-only names are refused |
| Codec.Encrypt | server/src/main/java/com/server/Server.java:95-98 | `encryptMessage`, the same reversal in both programs. `DecryptEncrypt` and `EncryptDecrypt` are its partners |
| Codec.Decrypt | server/src/main/java/com/server/Server.java:106-109 | `decryptMessage`, a reversal. `DecryptEncrypt` proves it inverts `Encrypt` |
| Codec.DecryptEncrypt | server/src/main/java/com/server/Server.java:95-109 | `decryptMessage(encryptMessage(m)) == m` |
| Codec.EncryptDecrypt | client/src/main/java/com/client/Client.java:235-237 | encryption undoes decryption and is an involution |
| Codec.EncryptKeepsCharacters | server/src/main/java/com/server/Server.java:95-109 | `Encrypt` and `Decrypt` both keep the length, and neither adds a line break to a string without one |
| Codec.Frame | client/src/main/java/com/client/Client.java:228-230 | what `sendMessage` writes: the encrypted text, then CRLF. `FrameRoundTrip` is its partner |
| Codec.FrameRoundTrip | client/src/main/java/com/client/Client.java:227-232 | the server's `readLine` of a client frame yields the encrypted text, and decrypting it gives back the message typed |
| Protocol.ChatLine | server/src/main/java/com/server/Server.java:68 | the line-68 format `[time] user: text`. `ChatLineIsNotRoster` and `ChatLineReadsBack` are its partners |
| Protocol.ChatLineIsNotRoster | server/src/main/java/com/server/Server.java:68 | a chat line never starts with `USERLIST:` |
| Protocol.RejectionIsNotRoster | server/src/main/java/com/server/Server.java:54 | the rejection line never starts with `USERLIST:` |
| Protocol.RosterLine | server/src/main/java/com/server/Server.java:133-134 | `USERLIST:` followed by the names joined with `", "`. `RosterSplitsBack` is its partner: the names come back out |
| Protocol.RosterSplitsBack | server/src/main/java/com/server/Server.java:133-134 | a non-empty roster of valid names splits back into the same names, in order |
| Protocol.NamesAvoidSeparator | server/src/main/java/com/server/Server.java:133-134 | valid names are non-empty and hold no comma, so their join can be split apart again |
| ChatServer.RemoveFirst | server/src/main/java/com/server/Server.java:153-154 | `List.remove(Object)` leaves a list without the element unchanged, and otherwise makes it one shorter |
| ChatServer.RemoveFirstSplice | server/src/main/java/com/server/Server.java:153-154 | removal deletes the first occurrence and keeps everything around it in order |
| ChatServer.RemoveFirstMembers | server/src/main/java/com/server/Server.java:153-154 | removal keeps every other element, and on a repeat-free list leaves no copy and creates no repeat |
| ChatServer.RemoveFirstAppend | server/src/main/java/com/server/Server.java:154 | when the element is in the front part, removal leaves what follows untouched |
| ChatServer.RemoveFirstMultiset | server/src/main/java/com/server/Server.java:154 | removal takes exactly one copy of the element out of the list's multiset |
| ChatServer.RosterAfterSession | server/src/main/java/com/server/Server.java:46-77 | after a session joins as `name` and leaves, the roster holds the same names. It is the same list when the name was new; otherwise the earlier entry goes and the name moves to the end |
| ChatServer.Surviving | server/src/main/java/com/server/Server.java:116-127 | what `clients` becomes after one broadcast: the listed writers whose writes succeed, in list order. `SurvivingMembers`, `SurvivingAppend` and `BroadcastDone` are its partners |
| ChatServer.SurvivingMembers | server/src/main/java/com/server/Server.java:116-127 | a writer stays in `clients` after a broadcast exactly when it was listed and its write does not fail |
| ChatServer.SurvivingDistinct | server/src/main/java/com/server/Server.java:116-127 | pruning keeps `clients` free of repeats |
| ChatServer.SurvivingAppend | server/src/main/java/com/server/Server.java:116-127 | survivors keep their relative order across any split of the list |
| ChatServer.SurvivingNoneFail | server/src/main/java/com/server/Server.java:116-127 | a broadcast where no write fails leaves `clients` as it was |
| ChatServer.SurvivingIdempotent | server/src/main/java/com/server/Server.java:116-127 | a second prune with the same failing writers removes nothing more |
| ChatServer.PruneStep | server/src/main/java/com/server/Server.java:117-126 | handling snapshot writer `i` removes it from the live list exactly when its write fails, keeping the survivors before it and the writers still to go |
| ChatServer.FanOutStep | server/src/main/java/com/server/Server.java:117-121 | writing the line to one more snapshot writer extends the delivery to it alone |
| ChatServer.DeliveredThen | server/src/main/java/com/server/Server.java:65-69 | two deliveries to the same surviving writers are one delivery of both batches, in order |
| ChatServer.DeliveredThenWithout | server/src/main/java/com/server/Server.java:150-161 | when the second delivery skips writer `w`, every other writer gets both batches and `w` only the first |
| ChatServer.ChatFramesNext | server/src/main/java/com/server/Server.java:65-69 | the frames of one more line read extend the frames before it |
| ChatServer.RelayStep | server/src/main/java/com/server/Server.java:65-69 | broadcasting line `i` moves the read loop's delivered transcript on by exactly that line's frame |
| ChatServer.RelayDone | server/src/main/java/com/server/Server.java:65-69 | when the stream ends, every line's frame has been delivered in order, and the list was pruned once if anything was sent |
| ChatServer.JoinThenLeave | server/src/main/java/com/server/Server.java:46-77 | a writer appended, pruned with the rest and removed again leaves exactly the survivors of the list it joined |
| ChatServer.BroadcastStep | server/src/main/java/com/server/Server.java:117-126 | one turn of the broadcast loop keeps the loop invariant: survivors so far, then the writers still to go, each survivor sent the line |
| ChatServer.BroadcastDone | server/src/main/java/com/server/Server.java:116-127 | at the end of the loop `clients` is the survivors of the snapshot, without repeats, and each of them was sent the line |
| ChatServer.ChatFrames | server/src/main/java/com/server/Server.java:65-69 | one frame per line read, in read order: `[time] user: ` + the reversed line + CRLF |
| ChatServer.JoinedSession | server/src/main/java/com/server/Server.java:46-77 | across a joining session, each writer listed before (and not failing) receives the new roster, the chat frames and the closing roster. The session's own writer receives the first two. `clients` ends as the survivors of the list before |
| ChatServer.RejectedSession | server/src/main/java/com/server/Server.java:52-58 | across a refused session only the session's own writer can get the rejection line, and the listed writers get only the closing roster |
| ChatServer.JoinedOutcome | server/src/main/java/com/server/Server.java:46-77 | from the states the handshake, read loop and cleanup leave behind: `clients` ends as the survivors of the list before, `activeUsers` with the joined name removed again, each other listed writer holds the peer transcript and the own writer the own transcript |
| ChatServer.RejectedOutcome | server/src/main/java/com/server/Server.java:52-58 | the same for a refused session: both lists end as before (`clients` pruned of failing writers), peers get only the roster, and the own writer only the rejection line |
| ChatServer.Hub.constructor | server/src/main/java/com/server/Server.java:27-28 | both lists start empty |
| ChatServer.Hub.OpenWriter | server/src/main/java/com/server/Server.java:48 | a fresh writer with an empty log, and both lists unchanged |
| ChatServer.Hub.Send | server/src/main/java/com/server/Server.java:54-55 | the line reaches that writer alone unless its write fails |
| ChatServer.Hub.Deliver | server/src/main/java/com/server/Server.java:118-125 | a write appends the line to that writer's log; a failed write instead removes the writer's first occurrence from `clients` |
| ChatServer.Hub.WriteToAll | server/src/main/java/com/server/Server.java:116-127 | every non-failing writer of the entry snapshot receives the line and nobody else does; `clients` becomes exactly the survivors in their original order; `activeUsers` is untouched |
| ChatServer.Hub.BroadcastMessage | server/src/main/java/com/server/Server.java:116-127 | each non-failing listed writer receives `message + "\r\n"`, and failing writers are removed |
| ChatServer.Hub.BroadcastUserList | server/src/main/java/com/server/Server.java:132-145 | each non-failing listed writer receives `USERLIST:` + the names joined with `", "` + CRLF, and failing writers are removed |
| ChatServer.Session.constructor | server/src/main/java/com/server/Server.java:38-40 | a session starts with no writer and no username |
| ChatServer.Session.Handshake | server/src/main/java/com/server/Server.java:49-62 | an invalid or missing name leaves both lists and writes the rejection to the session's writer only (nothing on a read error). A valid name appends the writer and the name at the end, with no duplicate check, and broadcasts the new roster |
| ChatServer.Session.Relay | server/src/main/java/com/server/Server.java:66-68 | one line read is broadcast as `[time] user: reverse(line)` |
| ChatServer.Session.ReadLoop | server/src/main/java/com/server/Server.java:64-69 | every surviving listed writer receives one frame per line read, in read order |
| ChatServer.Session.Cleanup | server/src/main/java/com/server/Server.java:150-161 | with a writer, it removes that writer and the first entry equal to the username, then broadcasts the updated roster. With none, it changes nothing |
| ChatServer.Session.Serve | server/src/main/java/com/server/Server.java:49-76 | the session's whole effect: `clients` ends as the survivors of the list before. `activeUsers` ends with the joined name removed again (unchanged when refused). Every other listed writer receives the peer transcript, and the session's own writer the own transcript |
| ChatServer.Session.ServeJoined | server/src/main/java/com/server/Server.java:64-76 | after a successful handshake, the read loop and `cleanup` leave exactly the joined-session transcripts and lists, measured from the state before the handshake |
| ChatServer.Session.ServeRejected | server/src/main/java/com/server/Server.java:74-76 | after a refused handshake, `cleanup` leaves both lists as they were before it (`clients` pruned of failing writers) and completes the refused-session transcripts |
| ChatServer.Session.Run | server/src/main/java/com/server/Server.java:46-77 | the same, after opening a fresh writer; when the streams do not open, nothing changes |
| ChatClient.AnonymousIsName | client/src/main/java/com/client/Client.java:63 | the default name is itself a valid name |
| ChatClient.ChooseUsername | client/src/main/java/com/client/Client.java:61-68 | the dialog outcome as a value: a name to connect with, or exit. `ChooseUsernameSpec` characterises it |
| ChatClient.ChooseUsernameSpec | client/src/main/java/com/client/Client.java:61-68 | null or blank input becomes `Anonymous`; other input is kept exactly when it is valid, and exits otherwise; every name that gets through is accepted by the server's validator |
| ChatClient.ShouldSend | client/src/main/java/com/client/Client.java:217 | the guard `!message.trim().isEmpty()`; `ShouldSendIff` characterises it |
| ChatClient.ShouldSendIff | client/src/main/java/com/client/Client.java:217 | a message is sent exactly when some character of it lies above U+0020 |
| ChatClient.RosterText | client/src/main/java/com/client/Client.java:288-297 | the roster panel's text for a `USERLIST:` line. `RosterLineShown` and `EmptyRosterText` state what it is for the server's lines, and `UpdateActiveUsers` is proved to compute it |
| ChatClient.Built | client/src/main/java/com/client/Client.java:290-293 | after appending fields, the builder is `Active Users: ` + their join + `", "` |
| ChatClient.BuiltNext | client/src/main/java/com/client/Client.java:291-293 | one more append extends the builder by the field and `", "` |
| ChatClient.BuiltAll | client/src/main/java/com/client/Client.java:294-297 | the full builder is longer than two characters, and cutting two gives the roster text |
| ChatClient.Render | client/src/main/java/com/client/Client.java:271-275 | the dispatch: `USERLIST:` lines become the roster text, and all others show as they are. `ServerLinesShownVerbatim` and `RosterLineShown` are its partners |
| ChatClient.Rendered | client/src/main/java/com/client/Client.java:270-276 | one panel per incoming line, in order, each the line's rendering |
| ChatClient.EmptyRosterText | client/src/main/java/com/client/Client.java:288-297 | the empty roster line `USERLIST:` shows exactly `Active Users: ` |
| ChatClient.RosterLineShown | client/src/main/java/com/client/Client.java:287-299 | a roster line of valid names is shown as `Active Users: ` + the names joined with `", "`, in order |
| ChatClient.ServerLinesShownVerbatim | client/src/main/java/com/client/Client.java:270-273 | chat lines and the rejection line are displayed verbatim |
| ChatClient.Client.constructor | client/src/main/java/com/client/Client.java:59-73 | the username is the dialog's choice. An invalid name exits before connecting; otherwise the client writes `username + "\r\n"`, or exits when the connection fails |
| ChatClient.Client.SendMessage | client/src/main/java/com/client/Client.java:227-232 | the frame written is `encryptMessage(message) + "\r\n"`, unless the write fails |
| ChatClient.Client.ActionPerformed | client/src/main/java/com/client/Client.java:214-224 | blank text sends nothing and keeps the field. Other text is sent untrimmed, and the field is cleared only when the send succeeds |
| ChatClient.Client.DisplayMessage | client/src/main/java/com/client/Client.java:240-247 | one more panel holding the message |
| ChatClient.Client.UpdateActiveUsers | client/src/main/java/com/client/Client.java:287-299 | the panel added is `RosterText(msg)`: the seed followed by the fields joined with `", "`, or the seed without its last two characters when no field remains |
| ChatClient.Client.Run | client/src/main/java/com/client/Client.java:267-284 | the lines read are shown in order: roster lines rebuilt, all others verbatim. A lost connection then exits |
| Interop.NameHasNoLineBreak | server/src/main/java/com/server/Server.java:86 | a valid name holds no line break |
| Interop.ChosenNameJoins | client/src/main/java/com/client/Client.java:198-205 | the username line the client writes for any name it lets through is read back whole by the server, and the session joins |
| Interop.TypedMessageRelayed | client/src/main/java/com/client/Client.java:227-232 | the server reads and decrypts exactly the text typed without line breaks, and the chat line built from it is shown verbatim |
| Interop.ChatLineReadsBack | server/src/main/java/com/server/Server.java:68 | a chat line built from parts without line breaks crosses the wire as one line |
| Interop.HubRosterShown | client/src/main/java/com/client/Client.java:287-299 | every roster line a valid hub can write is shown as its names, in order, after `Active Users: ` |

## Left out

- Sockets and streams are not modelled: socket, reader and writer construction, `flush`, and `close`. A write is atomic. It either appends the line to the writer's log or, when the writer is in `failing`, delivers nothing.
- A writer's failure is fixed for a whole session. A writer cannot fail on one line and succeed on a later one.
- Concurrency is not modelled: the thread pool and the accept loop on port 2003 with its 5-second timeout. Operations run one at a time. A `Session`'s handshake, relay and cleanup may interleave with other sessions' operations on the same `Hub`, but an operation is never interrupted. Each broadcast walks the snapshot the `CopyOnWriteArrayList` would iterate.
- Logging is not modelled. The `FileHandler` setup and every `logger.log` call are diagnostics only.
- The clock is not modelled. `getCurrentTime` and `SimpleDateFormat` become the `times` parameter, one reading per relayed line.
- Swing is not modelled: `setupUI`, `formatLabel`, dialogs and window dragging. The window becomes the list of displayed texts.
  - `System.exit` becomes the `exited` flag.
  - `exitApplication`, reached from the exit button and the back icon, is not modelled.
- The Java regular-expression engine is not modelled. `matches("[a-zA-Z0-9_]+")` is a per-character matcher, and `split(", ")` is literal splitting with trailing empty fields dropped.
- Strings are sequences of Unicode scalar values. A Java string with an unpaired surrogate has no counterpart here. On every other string, reversing scalar values is what `StringBuilder.reverse` does, since it keeps surrogate pairs together.
- Where input comes from is not modelled:
  - the client's dialog is the constructor's `input` parameter;
  - a failed connection is its `connects` flag;
  - the lines `Client.run` reads are a sequence;
  - a `SocketException` while reading is the `lost` flag.

  A plain `IOException` is treated like the end of the stream. Neither exits.
- When a broadcast write fails, the writer's name stays in `activeUsers` until that session's own `cleanup`, as in the code. The model does not try to reconcile the two lists.
