# Practica1Chat: the chat server's registry and the client's line classifier

A Dafny model of the two halves of a small Java chat system that talk over
object streams: messages are `ChatMessage(id, type, text)` values whose type is
MESSAGE, LOGOUT, BAN, UNBAN or SHUTDOWN.

**The server** (`ChatServerImpl`) accepts connections and gives each one the
next id (counting from 0), and keeps the sessions in a list (`clientes`). It
also keeps a ban map from each user name to the sender names that user does
not want to hear from. Each session's thread reads messages. The first message
is the user name. Every later one is dispatched:
- a MESSAGE is broadcast to everyone but its sender, minus those who banned the
  sender name read off the text;
- unless its second word is `drop`, in which case the session named by the
  third word is removed and the requester alone is told;
- BAN and UNBAN update the ban map and broadcast a notice;
- LOGOUT removes a session;
- SHUTDOWN notifies everyone, closes every session and stops the server.

**The client** (`ChatClientImpl`) turns each console line into one message. It
prefixes the user name to the text, and it stops after `logout` or `shutdown`.
Its listener shows what arrives, learns its id from the first message, and
stops on SHUTDOWN or LOGOUT.

The model is split into these modules:

| module | file | what it holds |
|---|---|---|
| `JavaLang` | java_lang.dfy | The Java library behaviour the code relies on: `String.split` (split at every separator, then drop trailing empty strings), `trim`, ASCII `equalsIgnoreCase`, `startsWith`, and array indexing that throws `ArrayIndexOutOfBoundsException` (`At`). |
| `Protocol` | protocol.dfy | `ChatMessage` and its five types. |
| `Bans` | bans.dfy | The ban map as `map<string, set<string>>`, with `computeIfAbsent(..).add` and `get(..).remove`. |
| `ServerParse` | server_parse.dfy | The three text parsers of the server. `SenderName` and `BanTarget` are defined by what they mean, and `SenderNameIsSplit` and `BanTargetIsSplit` prove them equal to the Java `split`/`trim` expression, exception included. `DropCommand` is the Java expression itself, and `DropCommandWords` and `DropWithoutTargetThrows` state what it means. `TrimOutcome` is `.trim()` applied to an array access that may have thrown: the exception propagates. |
| `Registry` | registry.dfy | Sessions and per-connection output channels as values. `Write` is `writeObject` on a connection: the message is appended to an open channel whose peer is there, and lost otherwise. The walks that broadcast, remove, drop and shutdown make over the list are recursive functions, with their properties as lemmas. |
| `ServerSpec` | server_spec.dfy | The whole server state as a value. Each operation is a function from the state before to the state after. There is an invariant (`Consistent`) and lemmas showing every operation keeps it. |
| `Server` | server.dfy | `class ChatServer`, with the fields of `ChatServerImpl` and one method per operation. Loops with invariants are proved to produce exactly the `ServerSpec` state. |
| `ServerProperties` | server_properties.dfy | What the server promises, proved about the `ServerSpec` functions. |
| `Client` | client.dfy | The pure line classifier and `class ChatClient`, which runs the console loop and the listener loop. |
| `RoundTrip` | round_trip.dfy | What the server reads back out of the texts the client builds. |

Some behaviour is the code's own and the model keeps it:
- Broadcast has no "registered" test: a session that has not sent its user
  name yet still receives broadcasts. Such a session has no ban entry.
- The sender name is the trimmed text before the first ':'. A text with no
  ':' uses the whole trimmed text. A non-empty text made only of colons has no
  sender name: `split(":")` gives an empty array and `[0]` throws.
- The sender name is read only for a recipient with a ban entry. A text
  without a sender name therefore throws only when such a recipient is
  reached, after the earlier recipients have already been written to.
- `unbanUser` answers true whenever the user has a ban entry, even when the
  target was not in it. Ban entries are never deleted.
- LOGOUT removes the session whose id the message carries, not necessarily the
  session that read it. The reading session's loop stops in every case.
- Every new connection is first sent a welcome MESSAGE carrying its id. The
  client takes its id from the first message it receives.
- An uncaught exception in `tratamientoMensaje` ends that session's thread. It
  is reported as `Crashed(e)`; the state is left as it was when the exception
  was thrown. The exceptions are: the drop command's missing third word, a
  MESSAGE text made only of spaces (`split(" ")` gives an empty array, so
  `datos[1]` at line 207 throws), a missing BAN/UNBAN target, a broadcast with
  no sender name, and `drop` meeting an unregistered session.
- The console loop reads a line before testing `carryOn`, so one more line is
  consumed after `logout` or `shutdown`; `Console` returns how many lines it
  consumed.

Output streams are modelled as one `Channel` per accepted connection, indexed
by session id. A channel holds the messages written so far, whether the server
closed it (`disconnect`), and whether the peer went away. A write to a closed
channel fails; the resulting IOException is caught, so the message is lost and
the loop goes on. `PeerCloses` is the environment event that makes the peer go
away.

## Model

Paths are relative to the repository root. `ChatServerImpl.java` is
`src/main/java/es/ubu/lsi/server/ChatServerImpl.java`, and `ChatClientImpl.java`
is `src/main/java/es/ubu/lsi/client/ChatClientImpl.java`.

| member | source | states |
|---|---|---|
| JavaLang.BeforeFirst | src/main/java/es/ubu/lsi/server/ChatServerImpl.java:112 | The text before the first separator has no separator, and is the whole text when there is none. |
| JavaLang.AfterFirst | src/main/java/es/ubu/lsi/server/ChatServerImpl.java:221 | The text after the first separator, the rest of `split(":")` past element 0. It is shorter than the text, and empty when there is no separator. |
| JavaLang.AroundFirst | src/main/java/es/ubu/lsi/server/ChatServerImpl.java:221 | The first separator cuts the text into what comes before it and what comes after it: the text is their join around the separator. |
| JavaLang.JoinPieces | src/main/java/es/ubu/lsi/server/ChatServerImpl.java:112 | Splitting at every separator loses nothing: joining the pieces with the separator gives back the text. |
| JavaLang.PiecesWithoutSep | src/main/java/es/ubu/lsi/server/ChatServerImpl.java:206 | A text without the separator is a single piece. |
| JavaLang.PiecesAt | src/main/java/es/ubu/lsi/server/ChatServerImpl.java:206 | A text `a + sep + b` with no separator in `a` splits into `a` followed by the pieces of `b`. |
| JavaLang.PiecesAllEmpty | src/main/java/es/ubu/lsi/server/ChatServerImpl.java:112 | A text of separators alone splits into empty pieces only. |
| JavaLang.Pieces | src/main/java/es/ubu/lsi/server/ChatServerImpl.java:112 | Splitting at every separator gives at least one piece, and no piece contains the separator. |
| JavaLang.PiecesHead | src/main/java/es/ubu/lsi/server/ChatServerImpl.java:112 | The first piece is the text before the first separator. |
| JavaLang.PiecesTail | src/main/java/es/ubu/lsi/server/ChatServerImpl.java:221 | The pieces after the first are the pieces of the text after the first separator. |
| JavaLang.DropTrailingEmpty | src/main/java/es/ubu/lsi/server/ChatServerImpl.java:112 | `String.split` drops only trailing empty strings: the result is a prefix of the pieces that ends in a non-empty one, and everything dropped is empty. |
| JavaLang.SplitFirst | src/main/java/es/ubu/lsi/server/ChatServerImpl.java:112 | `split(sep)[0]` is the text before the first separator. It throws exactly when the text is non-empty and made only of separators. |
| JavaLang.SplitSecond | src/main/java/es/ubu/lsi/server/ChatServerImpl.java:221 | `split(sep)[1]` is the text between the first and second separator. It throws exactly when there is no separator or only separators follow the first. |
| JavaLang.Split | src/main/java/es/ubu/lsi/server/ChatServerImpl.java:206 | `String.split` with a one-character separator: no element contains the separator, and when the text contains it the last element is non-empty. |
| JavaLang.Trim | src/main/java/es/ubu/lsi/server/ChatServerImpl.java:112 | `String.trim`: the result has no leading or trailing character at or below the space, is no longer than the text, and leaves an already trimmed text unchanged. |
| JavaLang.TrimInfix | src/main/java/es/ubu/lsi/server/ChatServerImpl.java:112 | `trim` keeps exactly the slice between a blank prefix and a blank suffix. With Trim's own contract this fixes the result. |
| JavaLang.TrimLeadingSpace | src/main/java/es/ubu/lsi/server/ChatServerImpl.java:221 | A leading blank character does not change the result of `trim`. |
| JavaLang.EqualsIgnoreCase | src/main/java/es/ubu/lsi/server/ChatServerImpl.java:144 | `equalsIgnoreCase` over ASCII: every string equals itself ignoring case. |
| JavaLang.StartsWith | src/main/java/es/ubu/lsi/client/ChatClientImpl.java:124 | `startsWith`: a text that starts with `p` is `p` followed by the rest, and every text starts with the empty string. |
| Bans.WithBan | src/main/java/es/ubu/lsi/server/ChatServerImpl.java:152-155 | After `computeIfAbsent(user, ..).add(target)`: `user` has an entry holding `target`, its other members are unchanged, and every other entry is unchanged. |
| Bans.WithoutBan | src/main/java/es/ubu/lsi/server/ChatServerImpl.java:157-164 | With an entry, `target` leaves it while the key and the other members stay. Without an entry the map is unchanged. No entry is ever deleted. |
| Bans.BanBlocks | src/main/java/es/ubu/lsi/server/ChatServerImpl.java:111-113 | After a ban, the ban filter blocks the target for that user, and no other recipient's filter changes. |
| Bans.UnbanUnblocks | src/main/java/es/ubu/lsi/server/ChatServerImpl.java:157-164 | After an unban, the filter no longer blocks the target for that user, and no other recipient's filter changes. |
| Bans.BanThenUnban | src/main/java/es/ubu/lsi/server/ChatServerImpl.java:152-164 | An unban right after a ban leaves the user's entry in place, minus the target. |
| ServerParse.SenderName | src/main/java/es/ubu/lsi/server/ChatServerImpl.java:112 | The sender name does not exist exactly when the text is non-empty and only colons. Without ':' it is the whole trimmed text. |
| ServerParse.SenderNameIsSplit | src/main/java/es/ubu/lsi/server/ChatServerImpl.java:112 | SenderName equals `text.split(":")[0].trim()`, exception included. |
| ServerParse.BanTarget | src/main/java/es/ubu/lsi/server/ChatServerImpl.java:221 | The ban target exists exactly when the text has a ':' that is followed by something other than colons. |
| ServerParse.BanTargetIsSplit | src/main/java/es/ubu/lsi/server/ChatServerImpl.java:221 | BanTarget equals `text.split(":")[1].trim()`, exception included. The same expression is used for UNBAN at line 226. |
| ServerParse.DropCommand | src/main/java/es/ubu/lsi/server/ChatServerImpl.java:206-208 | A text without a space is never a drop command. A text of spaces alone throws. A dropped name has no space. The only exception is the index one. |
| ServerParse.DropCommandWords | src/main/java/es/ubu/lsi/server/ChatServerImpl.java:206-208 | Three space-separated words name the third as a drop target exactly when the second is "drop" ignoring case. |
| ServerParse.DropWithoutTargetThrows | src/main/java/es/ubu/lsi/server/ChatServerImpl.java:206-208 | "x drop" with nothing after it throws at `datos[2]`, before `drop` is called. |
| Registry.IdsAppend | src/main/java/es/ubu/lsi/server/ChatServerImpl.java:59 | Appending a session adds exactly its id to the listed ids. |
| Registry.IdsPrefix | src/main/java/es/ubu/lsi/server/ChatServerImpl.java:108 | Each step of a walk over the list adds the next id, which is new when ids increase. |
| Registry.Disconnect | src/main/java/es/ubu/lsi/server/ChatServerImpl.java:186-201 | After `disconnect()` the channel cannot be written, and what was already sent stays. |
| Registry.Deliver | src/main/java/es/ubu/lsi/server/ChatServerImpl.java:108-121 | Broadcast's walk keeps one channel per connection. |
| Registry.FirstCrash | src/main/java/es/ubu/lsi/server/ChatServerImpl.java:108-121 | The position where broadcast throws, if any, lies in the list. |
| Registry.DeliverStep | src/main/java/es/ubu/lsi/server/ChatServerImpl.java:108-121 | One more recipient visited: it is written to exactly when it passes the filter, and broadcast throws there exactly when it needs a sender name that does not exist. |
| Registry.FirstCrashPrefix | src/main/java/es/ubu/lsi/server/ChatServerImpl.java:108-121 | Once broadcast has thrown, the rest of the list plays no part. |
| Registry.FirstCrashSpec | src/main/java/es/ubu/lsi/server/ChatServerImpl.java:110-112 | Broadcast throws at the first non-sender recipient that has a ban entry when the text has no sender name. It never throws when the text has one. |
| Registry.DeliverSpec | src/main/java/es/ubu/lsi/server/ChatServerImpl.java:108-121 | The message is written once to every listed session that is not the sender and has not banned the sender name, and to no other channel. |
| Registry.DeliverKeepsFlags | src/main/java/es/ubu/lsi/server/ChatServerImpl.java:115 | Broadcast only appends messages: it opens and closes no channel. |
| Registry.BanFiltersOnlyItsUser | src/main/java/es/ubu/lsi/server/ChatServerImpl.java:111-113 | After `user` bans a sender, sessions named `user` stop receiving it. Other sessions are unaffected, and an unban restores delivery. |
| Registry.Evict | src/main/java/es/ubu/lsi/server/ChatServerImpl.java:126-139 | Remove's walk keeps one channel per connection. |
| Registry.RemoveStep | src/main/java/es/ubu/lsi/server/ChatServerImpl.java:126-139 | One more session visited by remove: with the id it is notified, closed and dropped from the list; otherwise it is kept. |
| Registry.Without | src/main/java/es/ubu/lsi/server/ChatServerImpl.java:126-139 | The list after remove's walk is no longer than before and holds no session with that id. |
| Registry.WithoutMembers | src/main/java/es/ubu/lsi/server/ChatServerImpl.java:137 | The list after remove holds exactly the sessions with another id. |
| Registry.WithoutUnlisted | src/main/java/es/ubu/lsi/server/ChatServerImpl.java:125-140 | Removing an unlisted id leaves the list unchanged. |
| Registry.WithoutIncreasing | src/main/java/es/ubu/lsi/server/ChatServerImpl.java:137 | The kept sessions keep their relative order. |
| Registry.WithoutKeeps | src/main/java/es/ubu/lsi/server/ChatServerImpl.java:125-140 | Remove takes exactly that id out of the listed ids and keeps every invariant of the list. |
| Registry.EvictSpec | src/main/java/es/ubu/lsi/server/ChatServerImpl.java:129-137 | The session with the id, if listed, is written the LOGOUT notice with id -1 and then closed. No other channel changes. |
| Registry.FindUser | src/main/java/es/ubu/lsi/server/ChatServerImpl.java:143-149 | A position found by drop's lookup lies in the list. |
| Registry.FindUserFirst | src/main/java/es/ubu/lsi/server/ChatServerImpl.java:143-149 | Past a prefix of differently named sessions, the lookup is decided at the next position: not found at the end, a null name throws, and a match is found. |
| Registry.FindUserFound | src/main/java/es/ubu/lsi/server/ChatServerImpl.java:143-149 | A found session is named as asked, and all before it are named otherwise. The lookup answers "none" exactly when every session is named and none matches. |
| Registry.CloseAll | src/main/java/es/ubu/lsi/server/ChatServerImpl.java:83-88 | Shutdown's loop keeps one channel per connection. |
| Registry.CloseStep | src/main/java/es/ubu/lsi/server/ChatServerImpl.java:83-88 | One more session disconnected by shutdown's loop. |
| Registry.CloseAllSpec | src/main/java/es/ubu/lsi/server/ChatServerImpl.java:83-88 | Shutdown's loop closes every listed session's channel, writes nothing, and touches no other channel. |
| Registry.Position | src/main/java/es/ubu/lsi/server/ChatServerImpl.java:171-184 | The position found holds the session with that id. |
| Registry.PositionSpec | src/main/java/es/ubu/lsi/server/ChatServerImpl.java:171-184 | A session is found exactly when its id is listed. |
| Registry.Register | src/main/java/es/ubu/lsi/server/ChatServerImpl.java:253-255 | Registering a user name keeps the list's length and every session's id. |
| Registry.Deactivate | src/main/java/es/ubu/lsi/server/ChatServerImpl.java:232 | Clearing `activo` keeps the list's length and every session's id. |
| Registry.RegisterSpec | src/main/java/es/ubu/lsi/server/ChatServerImpl.java:253-255 | Registering names exactly session `k`, clears its `primero`, and keeps every id and invariant. |
| Registry.DeactivateSpec | src/main/java/es/ubu/lsi/server/ChatServerImpl.java:232 | Clearing `activo` stops exactly session `k` and keeps every id and invariant. |
| ServerSpec.AfterBroadcast | src/main/java/es/ubu/lsi/server/ChatServerImpl.java:103-122 | Broadcast keeps one channel per connection. |
| ServerSpec.AfterRemove | src/main/java/es/ubu/lsi/server/ChatServerImpl.java:125-140 | Remove keeps one channel per connection. |
| ServerSpec.AfterDrop | src/main/java/es/ubu/lsi/server/ChatServerImpl.java:142-150 | Drop keeps one channel per connection. |
| ServerSpec.AfterShutdown | src/main/java/es/ubu/lsi/server/ChatServerImpl.java:76-100 | Shutdown keeps one channel per connection. |
| ServerSpec.AfterHandle | src/main/java/es/ubu/lsi/server/ChatServerImpl.java:203-240 | Dispatching a message keeps one channel per connection. |
| ServerSpec.AfterAccept | src/main/java/es/ubu/lsi/server/ChatServerImpl.java:53-60 | A stopped server accepts nothing and changes nothing. Otherwise the answer is the new `clientId`, one more than before, and the new connection's channel comes last, open and holding only the welcome with that id. Earlier channels and the ban map are unchanged. |
| ServerSpec.AfterBan | src/main/java/es/ubu/lsi/server/ChatServerImpl.java:152-155 | Banning changes only the ban map, after which the user's filter blocks the target. |
| ServerSpec.AfterUnban | src/main/java/es/ubu/lsi/server/ChatServerImpl.java:157-164 | Unbanning changes only the ban map, after which the user's filter does not block the target. When the answer is false nothing changes. |
| ServerSpec.AfterReceive | src/main/java/es/ubu/lsi/server/ChatServerImpl.java:252-258 | The turn is a registration exactly when the session has not read its user name yet. A registration writes nothing and leaves the bans alone. |
| ServerSpec.AcceptKeeps | src/main/java/es/ubu/lsi/server/ChatServerImpl.java:53-60 | Accepting a connection keeps the server invariant. |
| ServerSpec.BroadcastKeeps | src/main/java/es/ubu/lsi/server/ChatServerImpl.java:103-122 | Broadcast keeps the server invariant, whether or not it throws. |
| ServerSpec.RemoveKeeps | src/main/java/es/ubu/lsi/server/ChatServerImpl.java:125-140 | Remove keeps the server invariant. |
| ServerSpec.DropKeeps | src/main/java/es/ubu/lsi/server/ChatServerImpl.java:142-150 | Drop keeps the server invariant. |
| ServerSpec.ShutdownKeeps | src/main/java/es/ubu/lsi/server/ChatServerImpl.java:76-100 | Shutdown keeps the server invariant. |
| ServerSpec.WriteKeeps | src/main/java/es/ubu/lsi/server/ChatServerImpl.java:211 | The drop reply keeps the server invariant. |
| ServerSpec.HandleKeeps | src/main/java/es/ubu/lsi/server/ChatServerImpl.java:203-240 | Every dispatch, including one that crashes, keeps the server invariant. |
| ServerSpec.ReceiveKeeps | src/main/java/es/ubu/lsi/server/ChatServerImpl.java:252-258 | Every turn of a session's read loop keeps the server invariant. |
| ServerSpec.NoticesHaveSender | src/main/java/es/ubu/lsi/server/ChatServerImpl.java:79-80 | The shutdown notice's sender name is its whole text, so broadcasting it never throws. |
| ServerSpec.BanNoticeHasSender | src/main/java/es/ubu/lsi/server/ChatServerImpl.java:223-229 | A ban or unban notice has a sender name, so broadcasting it never throws. |
| ServerSpec.ShutdownNoticeDelivered | src/main/java/es/ubu/lsi/server/ChatServerImpl.java:79-80 | Broadcasting the shutdown notice visits the whole list without throwing. |
| ServerProperties.AcceptAssignsNextId | src/main/java/es/ubu/lsi/server/ChatServerImpl.java:53-60 | After shutdown nothing is accepted. Otherwise the new id is the number of connections accepted before. It is above every listed id, so it is never reused, for as long as fewer than 2^31 connections have been accepted (see Left out). The new session is appended last and unregistered, with the welcome as its only message, and earlier channels are unchanged. |
| ServerProperties.BroadcastDelivers | src/main/java/es/ubu/lsi/server/ChatServerImpl.java:103-122 | Broadcast changes neither the list nor the ban map. It throws exactly when some recipient needs a missing sender name, and never when the text has one. Without a throw, every listed non-sender that has not banned the sender gets the message once, and nobody else gets anything. |
| ServerProperties.BroadcastStopsAtThrow | src/main/java/es/ubu/lsi/server/ChatServerImpl.java:108-121 | A broadcast that throws has written exactly to the recipients before the failing session, and to no one after it. |
| ServerProperties.NoEcho | src/main/java/es/ubu/lsi/server/ChatServerImpl.java:110 | The sender never gets its own message back. |
| ServerProperties.RemoveSpec | src/main/java/es/ubu/lsi/server/ChatServerImpl.java:125-140 | Remove lists exactly the other sessions, in order, and takes the id out of the listed ids. A listed session is sent the LOGOUT notice and closed. An unlisted id changes nothing. |
| ServerProperties.RemoveTwice | src/main/java/es/ubu/lsi/server/ChatServerImpl.java:125-140 | A second remove of the same id changes nothing. |
| ServerProperties.DropSpec | src/main/java/es/ubu/lsi/server/ChatServerImpl.java:142-150 | The walk's first decisive session decides the answer, in both directions. Drop answers true exactly when a session named `nombre` (ignoring case) comes before any unregistered one, and then the first match is removed as remove would. It answers false exactly when every session is named and none matches. It throws a NullPointerException exactly when an unregistered session comes first. Unless it answers true, nothing changes. |
| ServerProperties.FirstDecisive | src/main/java/es/ubu/lsi/server/ChatServerImpl.java:143-149 | Every list has a first position where drop's walk is decided. |
| ServerProperties.ShutdownClosesAll | src/main/java/es/ubu/lsi/server/ChatServerImpl.java:76-100 | After shutdown the list is empty, `alive` is false, every channel is closed, and the ban map is unchanged. |
| ServerProperties.ShutdownNotifies | src/main/java/es/ubu/lsi/server/ChatServerImpl.java:79-88 | Each listed session is sent the SHUTDOWN notice, unless its user banned the notice's sender name, and is then closed. |
| ServerProperties.ShutdownNoticeFilter | src/main/java/es/ubu/lsi/server/ChatServerImpl.java:110-113 | The notice's id -1 matches no session, so only the ban filter decides who gets it. |
| ServerProperties.ShutdownSparesUnlisted | src/main/java/es/ubu/lsi/server/ChatServerImpl.java:76-100 | Connections already out of the list are neither written to nor closed again. |
| ServerProperties.DropAnswersOnlyRequester | src/main/java/es/ubu/lsi/server/ChatServerImpl.java:206-216 | When the lookup completes, a drop command is answered to the requester alone, with the found or not-found reply. Apart from the dropped session's channel, no other channel is written, and nothing is broadcast. When an unregistered session comes before any match, `equalsIgnoreCase` on its null name throws at line 144: nothing changes, no reply is sent, and the requester's thread ends with a NullPointerException. |
| ServerProperties.ChatIsBroadcast | src/main/java/es/ubu/lsi/server/ChatServerImpl.java:217-219 | A MESSAGE that is not a drop command is broadcast unchanged: the new state is the broadcast's, and the thread crashes exactly when the broadcast throws. When the text has a sender name the loop goes on. |
| ServerProperties.BanNoticeSkipsRequester | src/main/java/es/ubu/lsi/server/ChatServerImpl.java:220-229 | BAN and UNBAN update the ban map under the session's own user name with the parsed target, and keep the list. The new state is that of broadcasting the notice from the updated state, so BroadcastDelivers says which other sessions get it. The notice never throws and never reaches the requester. |
| ServerProperties.BanSkipsRequester | src/main/java/es/ubu/lsi/server/ChatServerImpl.java:220-224 | BAN adds the target to the session user's ban set and keeps the list. The new state is that of broadcasting the ban notice after the ban, so every other session that passes the filter gets it. The notice does not throw and does not reach the requester. |
| ServerProperties.UnbanSkipsRequester | src/main/java/es/ubu/lsi/server/ChatServerImpl.java:225-229 | UNBAN lifts the target from the session user's ban set and keeps the list. The new state is that of broadcasting the unban notice after the unban, so every other session that passes the filter gets it. The notice does not throw and does not reach the requester. |
| ServerProperties.BanMidNotice | src/main/java/es/ubu/lsi/server/ChatServerImpl.java:223-229 | A notice that has a sender name and follows a ban map update: broadcasting it does not throw, keeps the list and the ban map, and leaves the sender's channel as it was. |
| ServerProperties.LogoutRemovesSender | src/main/java/es/ubu/lsi/server/ChatServerImpl.java:230-232 | LOGOUT takes the session with the message's id out of the list, and that session is not read from again. |
| ServerProperties.LogoutStopsHandler | src/main/java/es/ubu/lsi/server/ChatServerImpl.java:230-232 | LOGOUT ends the read loop of the session that handled it, whatever id the message carries. |
| ServerProperties.ShutdownStopsAll | src/main/java/es/ubu/lsi/server/ChatServerImpl.java:233-235 | SHUTDOWN from any session stops the server, and no session is read from again. |
| ServerProperties.RegistrationOnlyNames | src/main/java/es/ubu/lsi/server/ChatServerImpl.java:253-255 | The first message a session reads only sets its user name. Nothing is written or broadcast, the bans are unchanged, and no other session changes. |
| ServerProperties.PrimeroFlipsOnce | src/main/java/es/ubu/lsi/server/ChatServerImpl.java:252-258 | After any message a session reads, that session, if still listed, is registered and named. |
| ServerProperties.HandleKeepsRegistration | src/main/java/es/ubu/lsi/server/ChatServerImpl.java:256-257 | Dispatching never brings back a registered session's registration step. |
| ServerProperties.LogoutKeepsRegistration | src/main/java/es/ubu/lsi/server/ChatServerImpl.java:230-232 | LOGOUT only takes sessions out of the list and stops the handler, so a registered session stays registered. |
| Server.ChatServer.constructor | src/main/java/es/ubu/lsi/server/ChatServerImpl.java:39-46 | A new server is alive, has `clientId` -1, no sessions and no bans. |
| Server.ChatServer.Accept | src/main/java/es/ubu/lsi/server/ChatServerImpl.java:53-60 | One accept turn, with the welcome from line 248, leaves exactly the AfterAccept state and id and keeps the invariant. |
| Server.ChatServer.Broadcast | src/main/java/es/ubu/lsi/server/ChatServerImpl.java:103-122 | The loop leaves exactly the AfterBroadcast channels and exception. |
| Server.ChatServer.Remove | src/main/java/es/ubu/lsi/server/ChatServerImpl.java:125-140 | The iterator loop leaves exactly the AfterRemove list and channels. |
| Server.ChatServer.Drop | src/main/java/es/ubu/lsi/server/ChatServerImpl.java:142-150 | The lookup loop gives exactly the AfterDrop state and answer, exception included. |
| Server.ChatServer.BanUser | src/main/java/es/ubu/lsi/server/ChatServerImpl.java:152-155 | The answer is always true, and the ban map becomes WithBan. |
| Server.ChatServer.UnbanUser | src/main/java/es/ubu/lsi/server/ChatServerImpl.java:157-164 | The answer is whether the user has an entry, and the ban map becomes WithoutBan. |
| Server.ChatServer.Shutdown | src/main/java/es/ubu/lsi/server/ChatServerImpl.java:76-100 | The notice broadcast and the closing loop leave exactly the AfterShutdown state. |
| Server.ChatServer.Handle | src/main/java/es/ubu/lsi/server/ChatServerImpl.java:203-240 | The dispatch leaves exactly the AfterHandle state and step. |
| Server.ChatServer.Receive | src/main/java/es/ubu/lsi/server/ChatServerImpl.java:252-258 | One turn of the read loop leaves exactly the AfterReceive state and step. |
| Server.ChatServer.PeerCloses | src/main/java/es/ubu/lsi/server/ChatServerImpl.java:115 | The peer of one connection goes away, so later writes to it fail. Nothing else changes. |
| Client.Classify | src/main/java/es/ubu/lsi/client/ChatClientImpl.java:116-135 | Every message carries the client's id and a text starting with "username: ". The loop stops exactly on "logout" or "shutdown" ignoring case. |
| Client.CommandsDisjoint | src/main/java/es/ubu/lsi/client/ChatClientImpl.java:116-135 | The kinds of line exclude one another, so each line matches at most one test. |
| Client.ClassifyKinds | src/main/java/es/ubu/lsi/client/ChatClientImpl.java:116-135 | For each type, in both directions, the lines it comes from. BAN and UNBAN carry the trimmed rest after "ban " or "unban ". Every other line travels unchanged after "username: ". |
| Client.Transcript | src/main/java/es/ubu/lsi/client/ChatClientImpl.java:114-136 | One message per line. |
| Client.TranscriptSpec | src/main/java/es/ubu/lsi/client/ChatClientImpl.java:114-136 | The i-th message sent is the classification of the i-th line. |
| Client.TranscriptAt | src/main/java/es/ubu/lsi/client/ChatClientImpl.java:114-136 | The message sent for the j-th line is that line's classification. |
| Client.TranscriptStep | src/main/java/es/ubu/lsi/client/ChatClientImpl.java:114-136 | One more line adds its message at the end. |
| Client.HandledUntil | src/main/java/es/ubu/lsi/client/ChatClientImpl.java:114 | A loop that stops after its first stopping element handles no more than all the elements. |
| Client.HandledUntilSpec | src/main/java/es/ubu/lsi/client/ChatClientImpl.java:155-169 | The loop ends right after the first stopping element, and runs to the end when there is none. |
| Client.HandledUntilNext | src/main/java/es/ubu/lsi/client/ChatClientImpl.java:114 | One step of such a loop: a stopping element ends it there, and any other element takes it further or to the end. |
| Client.HandledUntilAll | src/main/java/es/ubu/lsi/client/ChatClientImpl.java:114 | A loop that ran to the end met no stopping element. |
| Client.Texts | src/main/java/es/ubu/lsi/client/ChatClientImpl.java:156 | One shown text per message received. |
| Client.ChatClient.constructor | src/main/java/es/ubu/lsi/client/ChatClientImpl.java:23-34 | A new client keeps its user name. Nothing has been sent or shown, `carryOn` and `primero` are set, and the id is 0. |
| Client.ChatClient.SendMessage | src/main/java/es/ubu/lsi/client/ChatClientImpl.java:57-64 | The message is appended to what was sent, unless the streams are closed and the write fails. |
| Client.ChatClient.Register | src/main/java/es/ubu/lsi/client/ChatClientImpl.java:100-101 | The registration is a MESSAGE whose text is exactly the user name. |
| Client.ChatClient.ConsoleLine | src/main/java/es/ubu/lsi/client/ChatClientImpl.java:116-135 | One typed line sends its classification, and `carryOn` is cleared exactly after "logout" or "shutdown". |
| Client.ChatClient.Console | src/main/java/es/ubu/lsi/client/ChatClientImpl.java:114-136 | Over the lines typed, the loop sends the classification of each line up to and including the first stopping one, in order. It stops exactly when such a line occurs. One more line is consumed after the stop. |
| Client.ChatClient.Disconnect | src/main/java/es/ubu/lsi/client/ChatClientImpl.java:67-79 | The streams are closed and `carryOn` is false. |
| Client.ChatClient.OnMessage | src/main/java/es/ubu/lsi/client/ChatClientImpl.java:155-169 | One message received: its text is shown, and the id is taken from the first message only. SHUTDOWN or LOGOUT clears `carryOn` and disconnects. |
| Client.ChatClient.Listen | src/main/java/es/ubu/lsi/client/ChatClientImpl.java:155-170 | Over the messages received, the listener takes them in up to and including the first SHUTDOWN or LOGOUT, showing each. The id comes from the first one only. It stops and disconnects exactly when such a message occurs. |
| RoundTrip.TrimKeepsOut | src/main/java/es/ubu/lsi/client/ChatClientImpl.java:125 | Trimming adds no character. |
| RoundTrip.PrefixedSender | src/main/java/es/ubu/lsi/server/ChatServerImpl.java:112 | For a text starting with "username: ", where the user name has no ':' and no surrounding blanks, the server reads the user name as the sender. |
| RoundTrip.ClientTextHasSender | src/main/java/es/ubu/lsi/client/ChatClientImpl.java:116-135 | The server's sender name of any text the client builds is the client's user name. |
| RoundTrip.TargetRoundTrip | src/main/java/es/ubu/lsi/server/ChatServerImpl.java:221 | For a trimmed target without ':' after "username: ", the server reads back exactly the target. |
| RoundTrip.BanLineRoundTrip | src/main/java/es/ubu/lsi/client/ChatClientImpl.java:124-131 | A "ban "/"unban " line without ':' reaches the server as BAN/UNBAN of the trimmed rest of the line. |
| RoundTrip.BanWordRoundTrip | src/main/java/es/ubu/lsi/client/ChatClientImpl.java:124-131 | "ban b" and "unban b" reach the server as BAN and UNBAN of exactly `b`. |
| RoundTrip.BanCommandBlocksSender | src/main/java/es/ubu/lsi/server/ChatServerImpl.java:110-113 | Once `a` bans `b`, no session of `a` receives anything `b` types. After the unban, `b`'s messages get through again. |
| RoundTrip.DLineIsChat | src/main/java/es/ubu/lsi/client/ChatClientImpl.java:132-134 | A line starting with 'd' travels as chat, unchanged. |
| RoundTrip.DropLineRoundTrip | src/main/java/es/ubu/lsi/server/ChatServerImpl.java:206-208 | "drop name", typed by a user whose name has no space, is the drop command for `name` at the server. |
| RoundTrip.LoneDropThrows | src/main/java/es/ubu/lsi/server/ChatServerImpl.java:206-208 | "drop" typed alone is chat for the client, but throws at the server when it looks for the third word. |

## Left out

- Sockets, `ServerSocket` (opening, accepting, closing) and object-stream serialisation are not modelled. A write is an append to the connection's channel, and a message read is a method argument.
- Threads are not modelled. Each operation runs to completion before the next starts. The code has no locking, so interleavings of session threads, of the accept loop, and of the client's console and listener threads are not covered.
- Logging, timestamps, `SimpleDateFormat`, and console printing and reading are left out.
- The process entry points `main`, `System.exit` and the client's `start()` are left out. The port number is not modelled.
- Closing streams in both `disconnect` methods is a flag. An IOException inside them is not modelled, and neither is a null stream in the client's.
- `output` being null before `run()` has opened it is not modelled: the welcome message is written as part of `Accept`.
- Server.ChatServer.Receive: the read loop reads a message before testing `alive`, so a message read after shutdown is discarded. This is modelled only in that `Reading` is false once `alive` is false.
- A thread ended by an uncaught exception (`Step.Crashed`) is not marked as ended. Its session stays listed and active, so a caller must stop feeding that session.
- Server.ChatServer.Remove and Server.ChatServer.Shutdown rebuild the session list rather than unlinking iterator nodes in place. The order of what remains is the same.
- JavaLang.EqualsIgnoreCase folds ASCII letters only, and `trim` treats every character at or below U+0020 as blank. Unicode case folding is not modelled.
- `ChatMessage` is modelled as a value (`datatype`), not a class.
- ServerProperties.AcceptAssignsNextId: ids are unbounded integers, so the model covers runs with fewer than 2^31 accepted connections. In Java `clientId` is an `int` (ChatServerImpl.java:31), and `clientId += 1` at line 56 wraps to -2^31 after 2^31 - 1; from then on ids are negative, and after 2^32 accepts they repeat. The model does not promise anything about that wrap.
- ServerSpec.AcceptKeeps and ServerSpec.AfterAccept: the same unbounded `clientId`; their id facts hold only below the 32-bit limit of the Java field.
- Server.ChatServer.Accept: the same unbounded `clientId` as in AfterAccept.

