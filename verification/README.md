# Verified model of the instant-messaging server and its client library

A Dafny 4.11 model of the hard logic of the instant-messaging system: the presence module's session
registry, the store-and-forward chat protocol, the socket framework's connection life cycle and queues, the
codec stack, and the client's acknowledgement queue and the dispatcher's look-up.
`dafny verify dfyconfig.toml` checks the whole project.

Code that changes things step by step is kept that way: classes with the source's fields, loops, arrays. Each
such method is proved equal to a function of the old state, and the promises are then proved about that
function, over single calls and over whole runs.

## What each file models

| file | what |
|---|---|
| `Queue.dfy`, `Logger.dfy` | the multi-priority queue of deques, and the logger that consumes one |
| `AddrInfo.dfy`, `Text.dfy` | printed addresses, and the C string helpers they need |
| `SocketLife.dfy`, `TcpSocket.dfy` | connections shared by accepting, receiving and sending threads: the state machine, and the methods of `CTcpSocket` |
| `SendPath.dfy`, `ReceivePath.dfy` | what reaches the wire, and what is received from it |
| `Presence.dfy`, `PresenceModule.dfy` | the registry and its table mirror; the handlers |
| `PresenceMirror.dfy`, `PresenceRace.dfy` | exactly when the table mirrors the registry, event by event and with logins that overlap |
| `Message.dfy`, `Router.dfy` | storing, routing, fan-out and acknowledging; the relay |
| `ChatProtocol.dfy`, `LoginReplay.dfy` | the protocol as a whole over lossy channels; a login up to the last replayed message |
| `StoreAndLogin.dfy` | a chat that is stored while its receiver logs in |
| `Base64.dfy`, `Base64Codec.dfy`, `XorCipher.dfy`, `LanChat.dfy` | both Base64 codecs, the in-place cipher, the LAN framing |
| `Separator.dfy` | delimiter replacement and the six-pass escaping |
| `AckQueue.dfy` | the client's acknowledgement queue |
| `Dispatch.dfy` | the dispatcher's pool and its search |

## How the outside world enters

- Database queries, the clock, sockets and other modules are parameters: each handler receives what the outside
  answered, including failure, and the results hold for every such answer. Tables are sequences or maps of rows.
- Threads: one mutex section, or one unlocked step of a thread, is one step of a state machine, and steps of all
  threads interleave freely. A packet handled by the send thread is one step.
- Objects that the source deletes by hand (`User`, `CSocketInfo`) live in an explicit heap, a map from pointers to
  values, so that following a deleted one can be stated and excluded.
- A `std::map` is a sequence of pairs in key order where its order matters, and a map where it does not.

## Assumptions

- Presence: the events of one connection are handled one at a time. Nothing is assumed of names. The indexes agree if
  and only if no login is let through on a connection that is listed already, which takes an earlier login there with
  an empty name (`Presence.IndexesAgree`; `PresenceRace.IndexesAgreeUnderInterleaving` when logins of different
  connections interleave). `TableMirrorsRegistry` is for good names, non-empty with no '@' after the first character,
  for events that are one step with their table write, for writes that work, and for a single node whose start-up
  left no row online. The names it asks for are exactly those that share no jid with another good name
  (`PresenceMirror.ClashesIff`). For names of any kind the exact condition is `PresenceMirror.TableMirrorsIff`, and
  for interleaved events and failing writes as well `PresenceRace.TruthIff`.
- Sockets: printed addresses are unique, and the number of threads is fixed and positive.
- Protocol: channels may lose, repeat and reorder anything. That a stored message waits or is acknowledged
  (`NoLoss`) needs nothing else. What a client has shown (`GoneMeansShown`, `NothingStoredIsLost`) needs that one id
  never stands for two different messages and that clients acknowledge what they have shown.
- Client: the id created for a received keepalive is that of no message sent (`AckQueue.FreshKeepAlives`).

## Where the code does something unexpected

- `xor_decode` appends the plaintext behind the buffer left by the Base64 decoder, so the self test `xor_test`,
  which compares the whole buffer, reports failure for every text that the encoder has room for
  (`XorCipher.XorTest`).
- The framework's encoder reserves n + n/2 characters, which is too little for n = 1, 2, 4, 5, 7, 10 and 13
  (`Base64.ReserveSuffices`); the client library's 2n is too little for 1, 2 and 4. The encoders and
  decoders tell through `inside` exactly when they stay within their buffers and tables, and promise nothing beyond.
- A group chat is acknowledged to its sender before the copies are stored, so an acknowledged group chat may reach
  nobody (`Message.GroupAckBeforeFanOut`). Every member gets a row exactly when every INSERT works
  (`Message.GroupReachesEveryMember`), and a row once stored is never lost (`ChatProtocol.NothingStoredIsLost`).
- A direct chat whose id is in the table already is stored again when the INSERT lets it, but never acknowledged
  (`ChatProtocol.DirectAckIff`).
- The router's timer does not unlock for an address without ':'. Its mutex is not recursive, so from then on nothing is
  relayed, and the timer itself never comes back when another row follows (`Router.FreeIff`, `Router.WalkIs`).
- A connection that an empty name has registered passes the gate again. A second login on it overwrites an object that
  is listed, and its old entry leads to a deleted object once the connection closes
  (`Presence.ReloginLeavesDanglingPointer`).
- A connection that was flagged by a sending thread can be read once more before the sweep, so a message can follow the
  terminal event of its address (`ReceivePath.LateIff`).
- A LAN signal delivers at most one message: complete frames are left waiting unless no last m signals completed
  more than m frames (`LanChat.PromptIff`). Two frames in one signal are enough.
- The client compares a received keepalive with the head of its queue by an id that was created when the keepalive
  arrived. So no keepalive is ever matched, and every answer to one clears all that waits for an acknowledgement, a
  tracked keepalive included (`AckQueue.EveryKeepAliveClears`, `AckQueue.NeverMatched`).
- Two sessions can share a jid when a name holds an '@', and then the close of one marks the other offline
  (`PresenceMirror.AtSignBreaksMirror`).
- A row written late can say online for a jid nobody holds (`PresenceRace.LateWriteBreaksMirror`).
- For customchat, live delivery and replay at login disagree on the addressee except in the cases of
  `Message.CustomchatViews`.

## Model

| member | source | states |
|---|---|---|
| `Presence.IndexesAgree` | server/imserver/presence/presence.cpp:150-253 | For every run of connect, login with kick-out, logout and close, with names of any kind: the address index and the name index describe the same live objects at every moment, and every entry leads to a live object of its name and resource at every moment, each if and only if no login is let through on a connection whose object is listed already |
| `Presence.TableMirrorsRegistry` | server/imserver/presence/presence.cpp:192-252 | After any run whose table writes work and whose names are non-empty with no '@' after the first character: every live session has its row, and a row says 1 if and only if a live session that has not logged out holds its jid |
| `Presence.LateCloseIsNoop` | server/imserver/presence/presence.cpp:518-533 | The close that arrives for a connection that was kicked out changes nothing at all, whether or not its database write would work |
| `Presence.KickoutFindsHolder` | server/imserver/presence/presence.cpp:514-535 | The holder found in the name index is a live session of that name and resource, is listed under its own address, and is not the object logging in unless that one is listed already: the unchecked look-up never misses |
| `Presence.RegisterIs` | server/imserver/presence/presence.cpp:489-540 | The mutex section of a login leaves exactly the newcomer registered under name and resource, removes the previous holder from everything, and touches no other connection |
| `Presence.ClosedIs` | server/imserver/presence/presence.cpp:192-252 | A close takes out its own connection, that is the object, the address and the one entry that leads to the object; its row goes to 0 if it is a session, has a row and the write works; nothing else changes |
| `Presence.LoggedInIs` | server/imserver/presence/presence.cpp:448-549 | A login that is let through gives the object its names, enters it under them in place of the session that was there, which goes, and sets the row to 1 when the write works; one that is not changes nothing |
| `Presence.RegisterKeeps` | server/imserver/presence/presence.cpp:489-540 | A login, whatever its name, keeps the indexes in agreement if and only if the object of its connection is not listed already; otherwise some entry does not lead to a live object of its name and resource |
| `Presence.ReloginLeavesDanglingPointer` | server/imserver/presence/presence.cpp:260-285 | After any login on a connection that is listed already, once the connection has closed, the entry of its first login leads to a deleted object |
| `Presence.JidInjective` | server/imserver/presence/presence.cpp:450-458 | Name + "@" + domain + "/" + resource determines name and the rest when names hold no '@' after the first character |
| `PresenceMirror.AtSignBreaksMirror` | server/imserver/presence/presence.cpp:450-458 | For every name with an '@' after its first character, in any domain and under any resource, there is a shorter good name and a run of four events with working writes that ends with the session live and its row at 0 |
| `PresenceMirror.ClashesIff` | server/imserver/presence/presence.cpp:450-458 | Some session of a name shares its jid with a session of another, good name if and only if the name is empty or has an '@' after its first character: the ban is exact |
| `PresenceMirror.CloseMirrorsIff` | server/imserver/presence/presence.cpp:192-252 | A close keeps the table a mirror if and only if no other live session has the closing session's jid, whatever the names |
| `PresenceMirror.LoginMirrorsIff` | server/imserver/presence/presence.cpp:448-573 | A login keeps it if and only if no live session has logged out under the jid, other than the one it kicks out |
| `PresenceMirror.LogoutMirrorsIff` | server/imserver/presence/presence.cpp:823-837 | A logout keeps it if and only if every other live session of the jid has logged out too |
| `PresenceMirror.StepMirrorsIff` | server/imserver/presence/presence.cpp:150-252 | Event by event, with working writes and names of any kind: an event that keeps the indexes in agreement keeps the mirror if and only if it is undisputed, which can be looked up before it |
| `PresenceMirror.TableMirrorsIff` | server/imserver/presence/presence.cpp:150-253 | For every run with working writes and names of any kind: the indexes agree and the table mirrors the registry at every moment if and only if no login is let through on a listed connection and every event is undisputed when it happens |
| `Presence.EmptyNameLeavesDanglingPointer` | server/imserver/presence/presence.cpp:340-362 | The shortest such run, an instance of the condition: connect, a login with an empty name, another login, close |
| `PresenceModule.TPSModule.constructor` | server/imserver/presence/presence.cpp:69-84 | Start-up sets this module's online rows offline and leaves other rows alone; nobody is shown online then if and only if every row at 1 was this module's |
| `PresenceModule.TPSModule.Connect` | server/imserver/presence/presence.cpp:150-188 | A new address gets a fresh object with no name under it and nothing else changes; a known address changes nothing and is told to close under both protocols |
| `PresenceModule.TPSModule.Close` | server/imserver/presence/presence.cpp:192-252 | The handler with its nested look-ups and erasures does exactly the close step and keeps the invariant |
| `PresenceModule.TPSModule.IsClose` | server/imserver/presence/presence.cpp:340-362 | Closed if and only if the address is unknown; otherwise a copy of the connection's own object |
| `PresenceModule.TPSModule.ProcessLogin` | server/imserver/presence/presence.cpp:448-573 | From gate to reply, place by place: nothing when not at the gate, a disconnect when the look-up fails, and else one close request for each row of the look-up, a kick-out when another session holds name and resource, and one reply, open if and only if the row was written; with the new state, the history row, and that the indexes still agree if and only if the connection was not listed already |
| `PresenceModule.LoginAnswers` | server/imserver/presence/presence.cpp:464-561 | The same of the specification function: what a login sends is that, in every state in which the indexes agree |
| `PresenceModule.TPSModule.Register` | server/imserver/presence/presence.cpp:489-540 | The mutex section with its unchecked map look-up: new state, the kick-out sent, and agreement if and only if the object was not listed already |
| `PresenceModule.KickoutToHolder` | server/imserver/presence/presence.cpp:514-522 | The kick-out goes to the previous holder's address under that holder's protocol, and none is sent when there is no holder |
| `PresenceModule.TPSModule.ProcessLogout` | server/imserver/presence/presence.cpp:823-837 | When the write works the row of the session's jid, if there is one, goes to 2 and no other changes; a history row is inserted, and only a logged-in connection is answered |
| `PresenceModule.TPSModule.Sessions` | server/imserver/presence/presence.cpp:743-771 | The walk over a user's resources visits each live session of that user once and no other connection, in the order of the resources |
| `PresenceModule.AddressesAre` | server/imserver/presence/presence.cpp:743-771 | The addresses in the order of the resources are those of the user's live sessions, each once |
| `PresenceModule.TPSModule.DeliverChat` | server/imserver/presence/presence.cpp:681-782 | A relayed id is re-read; when one row has it, every live session of the receiver gets one copy, in the order of the resources; when the query fails the message goes upstream again |
| `PresenceModule.TPSModule.ProcessAck` | server/imserver/presence/presence.cpp:575-615 | A receiver's acknowledgement goes upstream; a sender's goes once to every session of the sender, in the order of the resources |
| `PresenceRace.IndexesAgreeUnderInterleaving` | server/imserver/presence/presence.cpp:448-573 | For every interleaving of logins between their database and mutex sections with each other and with everything else, with names of any kind: the indexes agree at every moment if and only if no login registers on a connection whose object is listed already |
| `PresenceRace.MoveKeeps` | server/imserver/presence/presence.cpp:448-573 | Move by move the same, together with each waiting login's place at the gate |
| `PresenceRace.UninterruptedIsOneEvent` | server/imserver/presence/presence.cpp:448-573 | The separate steps of a login or logout with nothing in between are the event that is handled in one go, so the interleaved model refines the atomic one |
| `PresenceRace.WritesWhatTheGateSaw` | server/imserver/presence/presence.cpp:542-549 | A row is written under the jid the gate saw, whatever has become of the session since, and nothing but the row changes in the indexes |
| `PresenceRace.TruthIff` | server/imserver/presence/presence.cpp:448-573 | For every interleaving, whatever the names and whichever writes fail: the indexes agree and, at every moment, a row says online only for a jid an active session holds, and does so for every settled session, if and only if no login registers on a listed connection and every write was harmless when it landed |
| `PresenceRace.MoveTruthIff` | server/imserver/presence/presence.cpp:448-573 | The same move by move: when the indexes go on agreeing, the truth of the table survives a move if and only if the move is harmless |
| `PresenceRace.LateWriteBreaksMirror` | server/imserver/presence/presence.cpp:542-549 | An instance of the exact condition: a late row write leaves a jid online that nobody holds |
| `Message.StoreThenShow` | server/imserver/message/message.cpp:367-374 | What a stored row shows at login has the sender's from, to, type, category and body if and only if the chat names an addressee or the receiver's name is empty too; live delivery shows the same for every type but customchat |
| `Message.CustomchatViews` | server/imserver/presence/presence.cpp:737-738 | For customchat, exactly when live delivery and replay show the same addressee |
| `Message.DirectIsRouted` | server/imserver/message/message.cpp:382-420 | A stored direct chat goes to the router if and only if the receiver is online at one module, to push if and only if offline, unchanged either way |
| `Message.TMSModule.ProcessChat` | server/imserver/message/message.cpp:367-423 | Stores one copy and routes it; true exactly when the INSERT worked |
| `Message.TMSModule.ProcessChatAck` | server/imserver/message/message.cpp:425-466 | At most one acknowledgement leaves, and one leaves if and only if the SELECT worked and exactly one row has the id; it carries that row's time and goes to the sender |
| `Message.TMSModule.ProcessMessage` | server/imserver/message/message.cpp:265-365 | The handler with its fan-out loop does exactly the message step of the tables |
| `Message.NotStored` | server/imserver/message/message.cpp:265-365 | What is neither stored nor answered: an empty body or one of more than 1408 characters, an unknown type, a group whose member query or own INSERT failed; a chat that carries an address goes to push as it came and nowhere else |
| `Message.GroupIsRouted` | server/imserver/message/message.cpp:298-345 | What a group chat sends, for copies with ids of their own: copy by copy its id to the router for a module if and only if its INSERT worked and the look-up gave that one module, the chat to push for the member if and only if its INSERT worked and the look-up gave none, each once; before that the acknowledgement if and only if the id was new and could be read back; nothing else |
| `Message.TMSModule.ProcessAck` | server/imserver/message/message.cpp:179-245 | Removes or marks the acknowledged rows, depending on the save and share flags and the build |
| `Message.AckedRows` | server/imserver/message/message.cpp:179-245 | Row by row what an acknowledgement leaves: its own rows marked or gone, all others untouched; nothing happens when SELECT or write fails |
| `Message.OneRowPerActiveMember` | server/imserver/message/message.cpp:298-344 | When inserts succeed a group chat makes one row per active membership other than the sender's and none for anyone else |
| `Message.GroupReachesEveryMember` | server/imserver/message/message.cpp:298-345 | As many rows are added as there are members if and only if every INSERT worked; then row by row they are the members', of this chat and waiting, and show what the sender wrote, unless the chat names no group |
| `Message.MemberReachedIff` | server/imserver/message/message.cpp:334-345 | Member by member, whichever INSERTs fail: a row under the id of a member's copy is added if and only if its INSERT worked, and it is for that member and shows what the sender wrote, unless the chat names no group |
| `Message.GroupAckBeforeFanOut` | server/imserver/message/message.cpp:325-345 | The sender of a group chat holds an acknowledgement although no copy was stored, when the inserts fail |
| `ChatProtocol.NoLoss` | server/imserver/message/message.cpp:179-245 | In every state of every run over lossy, duplicating, reordering channels, whatever ids senders use and whoever acknowledges whatever: a direct chat acknowledged to its sender went into the table, and every id that ever did is still stored with status 0 or an acknowledgement with it was carried out since it last went in |
| `ChatProtocol.AnyMoveStoredOrDone` | server/imserver/message/message.cpp:149-175 | Each move of the server, of the channels or of a client keeps this, with no demand on any of them |
| `ChatProtocol.GoneMeansShown` | ios/IMPro/src/libclient/immodule.cpp:717-726 | When clients acknowledge only what they have shown and no id stands for two messages: an acknowledged direct chat that no longer waits has been shown by a client of the addressee exactly as the sender wrote it |
| `ChatProtocol.NothingStoredIsLost` | server/imserver/message/message.cpp:367-374 | The same for every row that ever went into the table, the copies of group chats included: it waits, or a client of its receiver has shown what it says |
| `ChatProtocol.NextLoginReplays` | server/imserver/presence/presence.cpp:379-427 | While such a chat waits, whatever a login owes its addressee holds it, with the sender's content |
| `ChatProtocol.DirectAckIff` | server/imserver/message/message.cpp:349-358 | A direct chat is acknowledged to its sender if and only if its row went in, could be read back, and no row had its id: a repeated send is stored but never acknowledged |
| `ChatProtocol.AckEndsWaiting` | server/imserver/message/message.cpp:179-245 | An acknowledgement ends the waiting of its id if and only if SELECT and write worked, and never touches another id or a row's content |
| `ChatProtocol.DirectSends` | server/imserver/message/message.cpp:349-423 | All that a stored direct chat sends, in order, and the row it leaves: to the router or to push as the look-up says, then the acknowledgement if and only if its id was new and could be read back |
| `ChatProtocol.DeliveriesDo` | server/imserver/presence/presence.cpp:681-771 | What the protocol's clients are sent: a relayed id reaches its receiver if and only if one row alone has it and holds no iq, a login sends exactly the rows of its answer that hold none |
| `ChatProtocol.OwedRows` | server/imserver/presence/presence.cpp:383-385 | The rows whose replays a login owes: each status-0 row of the user as often as it is stored, and nothing else |
| `ChatProtocol.ReplayUnacked` | server/imserver/presence/presence.cpp:387-426 | What the replay loop queues is what the table owes the user: as a multiset the replays of exactly the user's status-0 rows, sorted by time of receipt; nothing when the query fails |
| `LoginReplay.ProcessLogin` | server/imserver/presence/presence.cpp:448-573 | A whole login: waiting messages are queued if and only if gate, look-up, row write and replay query all worked, and then they are what the table owes the user; the history row goes in before |
| `StoreAndLogin.StoreMeetsLogin` | server/imserver/message/message.cpp:371-400 | Whatever else is interleaved on one node: a chat stored before a login of its receiver queries the waiting chats is in the answer unless it was acknowledged in between; one stored after that is routed, because the look-up finds the row the login wrote, unless that row was overwritten |
| `StoreAndLogin.SessionIsSentTheChat` | server/imserver/presence/presence.cpp:681-771 | To the end: the session is sent the chat as the sender wrote it, in the replay of its login or when the relayed id arrives, unless an acknowledgement, another write of its row, its own end or a second row with the id comes between |
| `StoreAndLogin.ActsAre` | server/imserver/presence/presence.cpp:192-252 | The steps named as exceptions do what they say: a session leaves, a row is set or overwritten, an acknowledgement takes its rows |
| `StoreAndLogin.BothOrdersNeeded` | server/imserver/presence/presence.cpp:383-390 | Every interleaving of a store and a login catches the chat if and only if the login writes its row before it reads the chats and the message module inserts the chat before it looks the receiver up |
| `Router.TSSModule.ProcessTimer` | server/imserver/router/router.cpp:293-338 | Every 180th turn, when its query works, the timer walks the rows: it learns new addresses with a port, leaves the mutex held at a new address without one, and never comes back when another row follows, the mutex not being recursive |
| `Router.ReleasedIff` | server/imserver/router/router.cpp:311-313 | Started with the mutex free, the timer comes back and gives back every lock if and only if every new address has a ':' |
| `Router.FreeIff` | server/imserver/core/util/include/ResourceBase.h:572-583 | Over any run of timer calls and relays, the mutex is free at the end if and only if no timer call on the way met a new address without a ':'; once one did, nothing is ever relayed again |
| `Router.KnownIs` | server/imserver/router/router.cpp:303-336 | Over any run, every address known was in a row of a timer call whose query worked, has a port, and is kept as it was learnt |
| `Router.WalkIs` | server/imserver/router/router.cpp:303-336 | What the walk leaves: the addresses with a port before the first row that sticks are known and none is overwritten; the mutex is held if and only if some row sticks; the timer never ends if and only if another row follows that one |
| `Router.PrintedAddress` | server/imserver/router/router.cpp:311-317 | An address printed as ip:port is learnt as that ip and port |
| `Router.TSSModule.Transform` | server/imserver/router/router.cpp:441-453 | At most one message leaves, it is the one that came in, and one leaves if and only if the named module is known and the mutex was free, for that module; with the mutex held for ever the call blocks |
| `Router.WhatIsSent` | server/imserver/router/router.cpp:423-453 | With the mutex free a message leaves if and only if its module is known, unchanged and for that module; and exactly which timer calls are counted |
| `Router.RelayAfterTimer` | server/imserver/router/router.cpp:423-453 | After a timer run that saw the row of a module not known before, what is relayed to it goes to the ip and port printed there if and only if no new address in that run was without a ':' |
| `SocketLife.NoDanglingPointer` | yuxin/framework/source/tcpsocket.cpp:316-412 | Under every interleaving of append, sweep, read and send steps each pointer about to be followed is live, and the map holds no deleted and no flagged object |
| `SocketLife.DeletedAfterOneTerminal` | yuxin/framework/source/tcpsocket.cpp:364-396 | When an object is deleted, exactly one terminal event for its address is queued, behind its one CONNECT in the same receive queue |
| `SocketLife.OpenIsAnnouncedOnce` | yuxin/framework/source/tcpsocket.cpp:157-187 | An open connection has one CONNECT and no terminal event anywhere, in the queue its printed address selects, which is that of its descriptor |
| `SocketLife.NeverReopens` | yuxin/framework/source/tcpsocket.cpp:639-673 | A closed address never opens again |
| `SocketLife.MoveKeeps` | yuxin/framework/source/tcpsocket.cpp:316-412 | Every step of every thread keeps the invariant: each object is in one place, map and flags agree, each receive queue tells a well-formed story |
| `SocketLife.ConnectionStep` | yuxin/framework/source/tcpsocket.cpp:157-699 | Step by step: where objects go, which event is queued in the queue the address selects, and that an event that closes is queued, with flag and removal, only by the step that still finds the address in the map |
| `SocketLife.StoryMeans` | yuxin/framework/source/tcpsocket.cpp:675-699 | A queue's story about an address says how many CONNECT and terminal events it holds and in which order |
| `SendPath.BytesOnTheWire` | yuxin/framework/source/tcpsocket.cpp:416-506 | On every connection, at every moment: the packets written whole, in the order of PushSend, then at most one proper beginning of a packet, after which nothing more is written |
| `SendPath.CutCloses` | yuxin/framework/source/tcpsocket.cpp:497-503 | After a partial send the address is out of the map for good |
| `SendPath.WritesThePacket` | yuxin/framework/source/tcpsocket.cpp:416-504 | A packet that can be written is: as much of it as the socket takes is written behind what was there, for no other connection; nothing is written if and only if the body is missing, unprintable or empty, no descriptor is found, or the socket takes nothing |
| `SendPath.ReportsThePacket` | yuxin/framework/source/tcpsocket.cpp:422-504 | Which event follows: disconnect for a packet without a body, none for an unprintable one, closed without a descriptor, active after a whole write and then disconnect if the packet asks for it, error after a write that broke off; what is closed leaves the map flagged |
| `SendPath.PushWaits` | yuxin/framework/source/tcpsocket.cpp:189-218 | A pushed packet waits behind the others in the queue its address selects, and nothing else takes a packet out or writes |
| `ReceivePath.BytesReceived` | yuxin/framework/source/tcpsocket.cpp:508-565 | On every connection, at every moment of every interleaving: the bytes received are the payloads of its RECV_MESSAGE events in queue order, all in the one queue its address selects, followed by what is still in the receive buffer |
| `ReceivePath.ReceivingStep` | yuxin/framework/source/tcpsocket.cpp:508-565 | A recv adds its bytes to the buffer of its own connection and no other; a cut moves the first bytes of the buffer into a new message at the end of the queue the address selects |
| `ReceivePath.LateIff` | yuxin/framework/source/tcpsocket.cpp:364-412 | Over every interleaving: a receive queue holds a message of an address behind the terminal event of that address if and only if it is the queue the address selects and a block was queued for the object after it had been flagged and before the sweep that deletes it |
| `ReceivePath.MoveLate` | yuxin/framework/source/tcpsocket.cpp:508-565 | Move by move: a message gets behind the terminal event of its address if and only if the move queues a block for a flagged object |
| `TcpSocket.CTcpSocket.AppendSocketInfo` | yuxin/framework/source/tcpsocket.cpp:157-187 | Announce, insert, hand over: the three sections equal the three steps of the state machine |
| `TcpSocket.CTcpSocket.AnnounceSocket` | yuxin/framework/source/tcpsocket.cpp:159-162 | The first section of an append: the object exists and its CONNECT is queued |
| `TcpSocket.CTcpSocket.InsertSocket` | yuxin/framework/source/tcpsocket.cpp:166-170 | The second section: the map holds it |
| `TcpSocket.CTcpSocket.HandSocketOver` | yuxin/framework/source/tcpsocket.cpp:172-176 | The third section: its accept queue holds it |
| `TcpSocket.CTcpSocket.CloseSocketInfo` | yuxin/framework/source/tcpsocket.cpp:657-673 | Flags, reports and erases exactly when the address is still in the map |
| `TcpSocket.CTcpSocket.DoRecvSocket` | yuxin/framework/source/tcpsocket.cpp:675-699 | The event goes to the back of the queue the printed address selects |
| `TcpSocket.CTcpSocket.TakeOne` | yuxin/framework/source/tcpsocket.cpp:338-358 | Moving one accepted connection to the work list, reporting it when registration fails |
| `TcpSocket.CTcpSocket.TakeAccepted` | yuxin/framework/source/tcpsocket.cpp:332-362 | The accept loop is a series of steps that keeps the invariant and stops at an empty queue or a full list |
| `TcpSocket.CTcpSocket.DropFlagged` | yuxin/framework/source/tcpsocket.cpp:368-378 | Dropping a flagged object deletes it and nothing else |
| `TcpSocket.CTcpSocket.DropTimedOut` | yuxin/framework/source/tcpsocket.cpp:379-391 | A timed-out object is reported once and then deleted |
| `TcpSocket.CTcpSocket.Sweep` | yuxin/framework/source/tcpsocket.cpp:364-396 | The erase-while-iterating sweep keeps exactly the connections neither flagged nor timed out, in order; the others on the list are deleted, and no other object is touched |
| `TcpSocket.KeptIs` | yuxin/framework/source/tcpsocket.cpp:364-396 | What is kept of a list: of its parts, one after the other, those that are live, not flagged and not timed out |
| `TcpSocket.SendMsg` | yuxin/framework/source/tcpsocket.cpp:605-635 | True if and only if the attempts before the first that fails take at least as many bytes as the packet has, and then all of it was written; otherwise a proper beginning was written, as long as what those attempts took |
| `TcpSocket.CTcpSocket.ReadMsg` | yuxin/framework/source/tcpsocket.cpp:508-565 | One reading turn: the blocks cut and the bytes kept are, joined, the bytes that were there; one message for each block is queued, in the queue the address selects, and then the end when the peer closed or the parser found the buffer broken, if the connection was still in the map, which it leaves |
| `AddrInfo.RoundTrip` | yuxin/framework/source/tcpsocket.cpp:34-47 | fd, ip and port read back from the printed address if and only if they fit the buffer, for every ip without ':' |
| `AddrInfo.FdReadsBack` | yuxin/framework/source/tcpsocket.cpp:204-206 | The descriptor reads back even from an address that was cut off, so all queues of a connection share one index |
| `AddrInfo.PrintIs` | yuxin/framework/source/tcpsocket.cpp:34-47 | What is printed, character by character: descriptor, '_', ip, ':', port, '@' and service and time, cut behind 127 |
| `Queue.CQueue.constructor` | yuxin/framework/header/queue.h:34-42 | A new queue is empty |
| `Queue.CQueue.Size` | yuxin/framework/header/queue.h:54-72 | Size is the number of queued elements over all priorities |
| `Queue.CQueue.Push` | yuxin/framework/header/queue.h:74-97 | Back or front of the level of max(key, 0), every other level unchanged |
| `Queue.CQueue.Pop` | yuxin/framework/header/queue.h:99-152 | The front of the highest non-empty level, removed or only looked at; -1 and no change exactly when all levels are empty |
| `Queue.PutBackFlatten` | yuxin/framework/header/queue.h:83-86 | Seen as one list from the highest priority down, a push to the back lands behind its own level and before lower ones |
| `Queue.PutFrontFlatten` | yuxin/framework/header/queue.h:87-90 | A push to the front lands before its own level and behind higher ones |
| `Queue.DrainOrder` | yuxin/framework/header/queue.h:99-152 | n pops return the first n elements of that list and leave the rest |
| `Queue.RunConserves` | yuxin/framework/header/queue.h:54-152 | After any mix of pushes, peeks and pops, what was popped together with what is queued is what was there and what was pushed |
| `Queue.SinglePriorityIsFifo` | yuxin/framework/header/queue.h:54-152 | Used with one priority and back pushes the queue is first in, first out over whole runs |
| `Logger.ExactlyOnce` | yuxin/framework/source/logger.cpp:169-185 | Under any interleaving of logging and the consumer's peek, print and pop, lines written followed by lines queued are the lines logged |
| `Logger.LoggedIsWrittenOrWaiting` | yuxin/framework/source/logger.cpp:124-131 | From an empty logger nothing is lost, repeated or reordered, and only written lines are freed |
| `Logger.RoundPrintsTheOldest` | yuxin/framework/source/logger.cpp:169-215 | A round whose file opens writes, removes and frees the oldest line; one whose file does not open changes nothing |
| `Logger.HigherPriorityWouldBeLost` | yuxin/framework/source/logger.cpp:175-181 | Why one priority matters: a push above the peeked line would make the pop free an unprinted one |
| `Logger.CLogger.PrintLog` | yuxin/framework/source/logger.cpp:169-215 | The consumer loop over the real queue conserves lines and prints one for each round whose file opens |
| `Base64.RoundTrip` | yuxin/framework/source/base64.cpp:19-95 | For every non-empty input decoding the encoding returns it, by both ways of counting padding, and the length is 4*ceil(n/3) |
| `Base64.EncodeOfDecode` | yuxin/framework/source/base64.cpp:19-95 | Encoding a decoded text gives it back if and only if the text is canonical, its unused padding bits zero |
| `Base64.EncodeLayout` | yuxin/framework/source/base64.cpp:19-64 | Group by group, the sextets of four letters read in base 64 are the three bytes read in base 256, a last group is filled with zero bits, and '=' stands exactly where bytes are missing (section 4 of RFC 4648) |
| `Base64.DecodeLayout` | yuxin/framework/source/base64.cpp:66-95 | Back: three bytes are the same number as four sextets; a character that is no letter counts as all ones |
| `Base64.AlphabetIs` | yuxin/framework/source/base64.cpp:5-17 | The letter of each of the 64 values (table 1 of RFC 4648) |
| `Base64.PrintsAscii` | yuxin/framework/source/base64.cpp:17 | Only ASCII is printed, never '@' |
| `Base64.ReserveSuffices` | yuxin/framework/source/base64.cpp:25 | The reserved n + n/2 characters suffice exactly for n >= 14 and for 3, 6, 8, 9, 11 and 12; the client library's 2n fails exactly for 1, 2 and 4 |
| `Base64.PadsDiffer` | ios/IMPro/src/libclient/base64.cpp:69-71 | The two decoders count padding differently exactly on texts that end in '=' and another character |
| `Base64Codec.EncodeString` | yuxin/framework/source/base64.cpp:19-64 | Stays within its buffer if and only if the reserve is long enough; then the first outlen characters of the resized buffer are the encoding, then NUL, then what the buffer held |
| `Base64Codec.DecodeString` | yuxin/framework/source/base64.cpp:66-95 | Short input leaves the buffer alone; from four characters on it stays within table and input if and only if these are whole groups of ASCII, and then the first outlen bytes of a buffer as long as the input are the decoded bytes |
| `Base64Codec.EncodeAlloc` | ios/IMPro/src/libclient/base64.cpp:8-49 | The client library's encoder into an allocated array, NUL behind it; outside the array exactly for 1, 2 and 4 bytes |
| `Base64Codec.DecodeAlloc` | ios/IMPro/src/libclient/base64.cpp:63-93 | The client library's decoder on a text that a NUL follows, into an allocated array: within bounds if and only if the text is ASCII and its length is 4k or 4k + 3, where the NUL completes the last group, or it is too short to decode |
| `XorCipher.CipherRoundTrip` | yuxin/framework/source/xor.cpp:57-109 | Decode, unmask, mirror, reverse after reverse, mirror, mask, encode is the identity, for every non-empty input and key |
| `XorCipher.XorEncode` | yuxin/framework/source/xor.cpp:57-82 | Stays within its buffers if and only if the Base64 text fits the reserve, and then the first outlen characters are the Base64 text of the scrambled input |
| `XorCipher.XorDecode` | yuxin/framework/source/xor.cpp:84-109 | Within bounds if and only if the text is whole groups of ASCII or too short; the plaintext is appended behind a buffer as long as the input, so it is the last outlen bytes |
| `XorCipher.XorTest` | yuxin/framework/source/xor.cpp:111-137 | For every text whose encoding fits, 14 bytes on and six shorter lengths: the last bytes are the text, but the self test compares the whole buffer and so reports failure |
| `XorCipher.SwapStr` | yuxin/framework/source/xor.cpp:5-21 | The modulo-256 add and subtract loop reverses the array |
| `XorCipher.SwapBit` | yuxin/framework/source/xor.cpp:23-40 | The mask loop mirrors the bits of every byte |
| `XorCipher.XorStr` | yuxin/framework/source/xor.cpp:42-55 | Position by position: byte k is masked with byte k modulo the key's length of the key |
| `XorCipher.ScrambledAt` | yuxin/framework/source/xor.cpp:57-82 | Where each bit of a scrambled text comes from: without its byte of the key, byte i is the plaintext byte at the same distance from the other end with its bits mirrored |
| `XorCipher.DefaultKeyIs` | yuxin/framework/source/xor.cpp:3 | The key used when none is given, byte by byte |
| `XorCipher.UnscrambledScrambled` | yuxin/framework/source/xor.cpp:57-109 | Scrambling and unscrambling undo each other in both orders and keep the length |
| `LanChat.AnyChunking` | ios/IMPro/src/alljoyn/lanchat.cpp:278-320 | For any payloads and any split into signals of what has arrived: delivered messages are a prefix of those sent, their number follows the one-frame-per-signal recurrence, and consumed frames plus buffer are the bytes received |
| `LanChat.PromptIff` | ios/IMPro/src/alljoyn/lanchat.cpp:284-307 | Every complete frame has been delivered if and only if no last m signals completed more than m frames |
| `LanChat.DeliveredIs` | ios/IMPro/src/alljoyn/lanchat.cpp:284-307 | The number of delivered messages in closed form: the least, over all i, of the frames complete after i signals plus the signals after them |
| `LanChat.OneFramePerSignal` | ios/IMPro/src/alljoyn/lanchat.cpp:278-320 | One whole frame per signal meets that condition: each signal delivers its message and the buffer ends empty |
| `LanChat.TwoFramesInOneSignal` | ios/IMPro/src/alljoyn/lanchat.cpp:284-307 | Two frames in one signal do not: the second stays in the buffer |
| `LanChat.EverySignalDecodable` | ios/IMPro/src/alljoyn/lanchat.cpp:294-298 | In every such run the decoder is only given whole groups |
| `LanChat.SendLanChat` | ios/IMPro/src/libclient/immodule.cpp:105-114 | The frame printed for a payload, within the encoder's buffer for all but 1, 2 and 4 bytes; an empty payload is not sent |
| `LanChat.CLanChat.ChatSignalHandler` | ios/IMPro/src/alljoyn/lanchat.cpp:278-320 | The handler appends, cuts at most one frame and keeps the rest, for every buffer whose first frame is ASCII of length 4k or 4k + 3 or too short to decode; for another one, and for no other, the decoder reads outside its bounds |
| `Separator.PresenceReplace` | server/imserver/presence/presence.cpp:1012-1032 | The find, erase and append loop ends and equals the left-to-right replacement of non-overlapping occurrences, whatever the replacement contains |
| `Separator.ReplaceSeparator` | yuxin/framework/source/header.cpp:234-257 | The guarded version: equal delimiters leave the text alone, which is what replacing would do |
| `Separator.EndsIff` | yuxin/framework/source/header.cpp:242-255 | The loop ends if and only if the delimiter is not empty |
| `Separator.SixPassesAreOne` | server/imserver/presence/presence.cpp:1082-1092 | Six passes in sequence are one substitution of every character at once |
| `Separator.UnescapeUndoes` | server/imserver/presence/presence.cpp:1082-1092 | A single pass undoes the escaping of every string |
| `Separator.OrderMatters` | server/imserver/presence/presence.cpp:1082-1088 | Of all orders of the six passes exactly those give the right text for every string in which backslash comes before quote, and '&' before '<' and '>' |
| `Separator.EscapeChain` | server/imserver/presence/presence.cpp:1082-1092 | The six calls compute the simultaneous substitution |
| `AckQueue.EveryIdOneOutcome` | ios/IMPro/src/libclient/immodule.cpp:828-1024 | In every run the tracked ids are, in the order of sending, those that were given one outcome and then those still waiting |
| `AckQueue.AckIsForHead` | ios/IMPro/src/libclient/immodule.cpp:995-1024 | An acknowledgement reaches the application if and only if it is for the head; any other id clears everything |
| `AckQueue.EveryEventHandled` | ios/IMPro/src/libclient/immodule.cpp:828-1024 | What each event does to whatever waits and which callbacks it makes, event by event |
| `AckQueue.LanAckChangesNothing` | ios/IMPro/src/libclient/immodule.cpp:888-898 | In every run an acknowledgement over the LAN leaves queue and outcomes alone |
| `AckQueue.TimesOutIff` | ios/IMPro/src/libclient/imsocket.cpp:793-802 | In every run with a clock that does not go back, looking at the head alone is right: all are reported as timed out if and only if some message has waited longer than the timeout, and otherwise nothing changes |
| `AckQueue.OnlyOrderedAcksCount` | ios/IMPro/src/libclient/immodule.cpp:995-1024 | A series of acknowledgements is reported message by message if and only if it comes in the order of sending without a gap |
| `AckQueue.EveryKeepAliveClears` | ios/IMPro/src/libclient/imsocket.cpp:177-180 | A received keepalive gets a newly created id, so in every run every keepalive answer clears all that waits at that moment |
| `AckQueue.NeverMatched` | ios/IMPro/src/libclient/immsg.cpp:149-153 | So in no run is a keepalive ever matched to its answer |
| `AckQueue.DroppedSilently` | ios/IMPro/src/libclient/imsocket.cpp:417-435 | What CSocketInfo::clear drops is never reported |
| `AckQueue.CImModule.ClearQueue` | ios/IMPro/src/libclient/immodule.cpp:995-1024 | The pop and flush loop, its result and its callbacks |
| `AckQueue.CImModule.OnAck` | ios/IMPro/src/libclient/immodule.cpp:888-898 | Acknowledgements over the server match the queue; those over the LAN bypass it |
| `AckQueue.CImModule.OnKeepAlive` | ios/IMPro/src/libclient/immodule.cpp:900-904 | A keepalive answer matches the queue and is never reported |
| `AckQueue.CImModule.OnTrouble` | ios/IMPro/src/libclient/immodule.cpp:834-855 | A socket event empties the queue with one callback per message |
| `AckQueue.CImModule.Timeout` | ios/IMPro/src/libclient/imsocket.cpp:793-802 | When the oldest message is too old all are reported as timed out |
| `AckQueue.CImModule.Clear` | ios/IMPro/src/libclient/imsocket.cpp:417-435 | The queue is emptied and nobody is told |
| `AckQueue.CImModule.AfterSend` | ios/IMPro/src/libclient/imsocket.cpp:904-911 | Only chats and explicit keepalives are tracked |
| `Dispatch.TGDModule.GetPoolInfo` | server/imserver/dispatch/dispatch.cpp:233-325 | Succeeds if and only if the greatest version not above the requested one has exactly two modules with something to offer; the text is then, in name order, the info of each at the place the hash has modulo its number of infos, a negative hash counting as an unsigned 64-bit number; the lock is released on every path and the last return is unreachable |
| `Dispatch.TGDModule.Take` | server/imserver/dispatch/dispatch.cpp:248-264 | The repeated tail: read the entry, unlock, report |
| `Dispatch.GetInfo` | server/imserver/dispatch/dispatch.cpp:208-231 | For two non-empty modules the text with the info of each at the hash modulo its number of infos, empty text for two of which one is empty, no change otherwise |
| `Dispatch.HashChooses` | server/imserver/dispatch/dispatch.cpp:208-231 | The hash-th info of each module for a hash below both lengths; round the lists for a larger one, and by the unsigned 64-bit value for a negative one |
| `Dispatch.SameChoice` | server/imserver/dispatch/dispatch.cpp:226 | Hashes that differ by a multiple of both lengths get the same answer |
| `Dispatch.StopIsBest` | server/imserver/dispatch/dispatch.cpp:299-322 | The entry before the first key above the version is the greatest not above it |
| `Dispatch.BuildOffers` | server/imserver/dispatch/dispatch.cpp:140-206 | The pool offers for every version and name what the live rows say, in their order |
| `Dispatch.BuildKnows` | server/imserver/dispatch/dispatch.cpp:140-206 | A version is in the pool if and only if a live row has it, and a module of it if and only if such a row names it and its address was kept |
| `Dispatch.GetModules` | server/imserver/dispatch/dispatch.cpp:140-206 | The row loop, with the query that translates each address, builds that pool; a failed translation keeps the address, none or several drop it |
| `Dispatch.TGDModule.ProcessTimer` | server/imserver/dispatch/dispatch.cpp:54-110 | Every 180th timer call, and any call while the pool is empty, replaces the whole pool and the public information under the lock; every other call only counts |

## Left out

- `CProtoByte` and the protobuf messages: packets are opaque byte sequences, and the parser that cuts them is a parameter.
- JNI, Qt, iOS and AllJoyn start-up, HTTP upload and download, the iOS push transport and `memsave.cpp`: foreign calls and easy bookkeeping.
- SQL text, its quoting and the fixed-size `sprintf` buffers: queries and inserts are functions on tables. The table message_timings is not modelled, nor is the router's UPDATE of its own uptime.
- `PresenceModule.TPSModule.ProcessLogin`: does not model the reply's text. If the holder found is the connection itself, the source reads a map entry it has erased; the model goes on with the pointer that was there.
- The storage paths of customchat from the web (`ProcessWebmsg` beyond its escaping), the blacklist, map points and deletions: they use other tables and add only easy members.
- Cross-node agreement of im_online_info: the mirror is claimed for one node.
- `ChatProtocol.ReplayUnacked`: does not decode the bytes of an "iq" row, it hands the stored text on.
- `PresenceModule.TPSModule.DeliverChat`: does not model the save and share flags shown with a chat, and hands an "iq" row's addressees on without its bytes.
- `Message.TMSModule.ProcessAck`: takes the pair's save and share flags and the build's record switch as parameters.
- Closing of descriptors, and reads of an object after it was handed to another thread: covered by taking sections as steps.
- `TcpSocket.CTcpSocket.ReadMsg`: takes the receive buffer in and gives it back as a value, because it belongs to an object of the explicit heap; the payloads of the queued events are in `ReceivePath`.
- Running out of memory: branches for a failed `new` are not modelled.
- Integer overflow of printed numbers: `Atoi` reads unbounded integers, and the wrap-around of `atoi` is undefined in C. The dispatcher's timer count is unbounded too.
- `Base64Codec.DecodeString` and the other codec methods: once an access leaves its buffer or table, `inside` turns false and nothing more is promised, because C leaves the effect undefined.
- `Logger.CLogger.PrintLog`: does not model the file rotation, nor the destructor, which drops a line whose file does not open.
- The blocking waits of `CQueue::Pop`: an empty queue answers at once.
- Cross-node interleavings of a store and a login: `StoreAndLogin` is for one node, where the look-up finds at most one module.
- `LanChat.SendLanChat`: does not model finding the room or the local acknowledgement after a send.
- `Router.TSSModule.Transform`: stands for `ProcessAck`, `ProcessClose` and `ProcessMessage` too, which differ only in the field that names the module; the web message poller is disabled in the source.
- `AckQueue.CImModule.ClearQueue`: does not model that a matched message is popped without being freed.
