# Trinity: a verified model of the chat and file-transfer program

Trinity is a peer-to-peer program: each process is a client that keeps a list of the peers it is connected to, and a
server that gives every incoming connection a session of its own. The two sides talk in packets, and files go across in
fragments. This project models the lists, the packets, the transfer, the conversation of one connection, the client's
commands and the server's sessions in Dafny 4.11, and proves what holds of them for every input and over every run.
`dafny verify dfyconfig.toml` checks the whole project.

## How it is laid out

- `LinkedList.dfy`: the doubly linked lists with two sentinels and a cursor (`src/list.c`, `src/listds.c`). A handle is a
  heap object that may be copied; several handles then share one chain of nodes. Each operation is proved against the same
  operation on a sequence and a cursor.
- `Sequences.dfy`, `Wrappers.dfy`: searching a sequence; a value that may be missing.
- `Wire.dfy`, `Channel.dfy`: packets on a byte stream, as values and as the reading and writing routines.
- `Files.dfy`, `FileTransfer.dfy`: appending to a file, the fragment loop of the session, the reassembly loop of the
  client.
- `Requests.dfy`, `Protocol.dfy`: one connection as a state machine in which client and session take steps in any order.
- `Registry.dfy`, `Commands.dfy`, `Client.dfy`: the client's list of peers, first what its passes do to a list, then
  what its commands do, send and read, then the routines of `src/client.c` on the linked list, proved against the former.
- `Roster.dfy`, `Turns.dfy`, `Sessions.dfy`: the list of connected sessions over time, what a run of the server comes to
  on values, and the sessions and the server that share the list on the heap.
- `Meanings.dfy`: what each command comes to, said by who is written to and what the session there makes of it.
- `Conversations.dfy`, `Network.dfy`: each connection of a client as a run of that state machine, and the server with
  clients of this program at the other ends of its connections.
- `Text.dfy`, `Listing.dfy`, `PortScan.dfy`: the string routines, the list of audio files, and reading the port scan's
  output.

## Main results

- The encoding of packets can be read in one way only, with any non-packet bytes in between; a reader that has part of a
  packet waits, and later bytes never change what it read. This is why the state machine may treat a packet as one step
  although bytes arrive one by one.
- Whatever a file contains, the client ends up with exactly that file, the digest matches, and both directions are empty.
- Over every run of a connection client and session stay in lockstep, nobody waits for the other, every request is
  answered after finitely many steps in whatever order they happen, and every answer, acknowledgement, refusal or file,
  belongs to the very request that it follows. The session notes the very text, name or file name that the client
  meant; a download is a file that the session found, a refusal follows a look that found none, a listing is the one it
  found.
- A check of the connections halves every run of dead peers, because deleting an entry already moves the cursor on and the
  pass then moves it again. So k checks clear the list if and only if no run was as long as 2^k. A broadcast command
  checks first, and peers may die in between: it misses a living peer if and only if the number of peers right before it
  in the checked list that are dead by then is odd. When nobody dies in between, that is half the number of dead peers
  right before it at the start, rounded down.
- Over every sequence of commands up to the one that ends the program, ports and descriptors in the client's list stay
  distinct and a new peer always gets in. Of all that the client writes and reads, what concerns one descriptor is a run
  of the connection's state machine: one connect request, then probes and requests, the answer to each request read before
  anything else happens, a goodbye last. So the session at the other end reads exactly one connect request.
- Each command means at the other end what its user wanted: SAY prints the message at the first peer of that name that
  can be written to, DOWNLOAD asks for that very file, SHOW AUDIOS for the list, BROADCAST prints at every peer that
  the pass reaches, EXIT ends the session of every peer that can be written to, CONNECT registers the peer under its
  session's name and makes the session note the user's. No command loses a peer that is alive throughout.
- The server is followed from its start over every schedule of accepted connections, arriving bytes and turns of the
  sessions, with files that may change all the time. Each session writes exactly the answers to the packets that
  arrived for it, in order, each from what was on the disk when its turn came, whatever the others do; once nothing
  more arrives and it has had enough turns, everything up to the first exit request is answered. The list that all
  sessions share through copied handles holds exactly the connected sessions, in order, if and only if no session
  handles two connect requests. With clients of this program that is always so, and closing the server then closes each
  connected session once, in the order in which they connected, each with a goodbye and nobody else with a byte.

## Where the code does not do what it is for

- `CLIENT_checkConnections` is to drop every dead peer, and one call drops about half of a run: of two dead peers side by
  side one stays (`Registry.CheckLeavesDeadPeer`). `Registry.SweepsNeeded` gives the exact condition.
- `CLIENT_broadcast` is to reach every connected peer, and passes over some living ones: the one behind two dead peers, or
  behind one that dies after the check (`Registry.BroadcastMissesPeer`; exact condition in `Registry.BroadcastReaches`).
- `UTILS_compareCaseInsensitive` is to ignore case. It tells the registered name `mia` from a typed `MIA`
  (`Text.LowerCaseNameIsMissed`, `Registry.LowerCasePeerIsMissed`), and it takes `mia1` for a typed `miaQ` (`Text.OtherNameIsTaken`), because it subtracts 32
  from the typed character whether or not that is a letter. A registered name is compared rightly with everything that may
  be typed if and only if each of its characters is a capital, or one of codes 96, 123 to 127 and 224
  (`Text.MatchesKeepsPromiseIff`).
- The list of sessions is to hold those that are connected. A session that connects twice and ends stays in it
  (`Roster.EndedSessionStays`; exact condition in `Roster.ListedIsConnectedIff`); no client of this program connects twice.
- `IO_write` restores the offset through an `int`: an offset of 2^31 is not restored (`Files.LargeOffsetIsLost`; exact
  condition in `Files.OffsetSurvivesIff`). The download loop never gets there: its offset stays 0
  (`FileTransfer.ReceiveFile`).
- `PACKET_create` cuts a text of 65536 characters or more, one of exactly 65536 to nothing (`Wire.LongTextIsCut`), to a
  packet that is still well formed (`Wire.CreateKeepsData`).
- `LLISTABID_inserirDarrere` refuses a new peer when the list is empty with its cursor on the right
  (`Registry.NewPeerIsLost`, `Registry.EnterSucceedsIff`); the check before each command rules that state out
  (`Client.Client.Prompt`).

## Assumptions

A read delivers the full count it asks for unless the stream ends, and connections are lossless and in order. Both
ends use the same byte order (low byte first here). The regions between lock and unlock are atomic, so that one round
of a session is one step. New sockets get a descriptor that is not open, and no session's descriptor is closed while
the server runs. A write fails exactly when the peer is dead; which peers are dead is given from outside. Within one
command it may be a fixed set, because no pass writes to a descriptor twice; commands with two passes take two sets.
The digest is any function with results of 32 characters. A file does not change while it is sent.

## Model

| member | source | states |
|---|---|---|
| `LinkedList.InsertBeforeUndone` | src/list.c:61-148 | inserting left of the cursor, stepping back and deleting restores both the sequence and the cursor |
| `LinkedList.InsertAfterUndone` | src/list.c:38-136 | inserting right of the cursor, advancing and deleting restores the sequence, with the cursor one step right |
| `LinkedList.Node.LinkIn` | src/list.c:49-54 | linking a fresh node between two neighbours keeps the chain well formed both ways, and inserts exactly its element |
| `LinkedList.Node.LinkOut` | src/list.c:108-109 | unlinking a node keeps the chain well formed and removes exactly its element |
| `LinkedList.Handle.AtStart` | src/list.c:4-35 | a new client list is empty, its cursor on the left sentinel |
| `LinkedList.Handle.AtEnd` | src/listds.c:4-35 | a new session list is empty, its cursor on the right sentinel |
| `LinkedList.Handle.InsertAfter` | src/list.c:38-58 | the heap operation is the insertion on (sequence, cursor), refused exactly on the right sentinel, with the count kept in step |
| `LinkedList.Handle.InsertBefore` | src/list.c:61-82 | the same to the left of the cursor, refused exactly on the left sentinel |
| `LinkedList.Handle.Remove` | src/list.c:98-116 | removes the element at the cursor and leaves the cursor on its successor; refused exactly on a sentinel |
| `LinkedList.Handle.RemoveNode` | src/list.c:119-123 | removes a given node of the chain, even when the cursor was dangling |
| `LinkedList.Handle.Advance` | src/list.c:126-136 | one step right, refused exactly at the right sentinel |
| `LinkedList.Handle.Retreat` | src/list.c:139-148 | one step left, refused exactly at the left sentinel |
| `LinkedList.Handle.GoFirst` | src/list.c:151-156 | puts any cursor, also one on a freed node, on the first element or the right sentinel of an empty list |
| `LinkedList.Handle.GoLast` | src/list.c:159-164 | puts any cursor on the last element or the left sentinel of an empty list |
| `LinkedList.Handle.Query` | src/list.c:85-95 | the element at the cursor is the one of the sequence at that place |
| `LinkedList.Handle.IsEmpty` | src/list.c:167-171 | the pointer test holds exactly for the empty sequence |
| `LinkedList.Handle.AtLastSentinel` | src/list.c:187-190 | the pointer test holds exactly when the cursor is behind the last element |
| `LinkedList.Handle.AtFirstSentinel` | src/list.c:181-184 | the pointer test holds exactly when the cursor is before the first element |
| `LinkedList.Handle.Destroy` | src/list.c:193-207 | terminates, and frees each of the n + 2 nodes exactly once, in order |
| `Wire.KnownHeaderIsWellFormed` | libs/packet.h:20-35 | each header the two sides send has its only closing bracket at the end |
| `Wire.CreateKeepsData` | src/packet.c:101-130 | a created packet is always well formed, and carries all of its data if and only if the data is shorter than 65536 bytes |
| `Wire.LongTextIsCut` | src/packet.c:101-130 | a text of 65536 bytes is sent as an empty one |
| `Wire.ReadUndoesEncode` | src/packet.c:3-77 | reading an encoded packet gives back the packet and leaves exactly what followed it |
| `Wire.ReadIsInverse` | src/packet.c:9-56 | what a read consumed is exactly the encoding of what it returned, and one byte for a byte that is no packet type |
| `Wire.SkippedIff` | src/packet.c:10-15 | a read passes over a byte exactly when it is none of the types 1 to 6 |
| `Wire.ReadIsStable` | src/packet.c:10-56 | bytes that arrive later do not change what a read returned |
| `Wire.PartialPacketBlocks` | src/packet.c:27-50 | a reader that has seen a proper part of a packet waits |
| `Wire.EncodeIsPrefixFree` | src/packet.c:59-77 | no packet's encoding is a prefix of another's |
| `Wire.ParseUndoesStream` | src/packet.c:10-56 | repeated reading returns any sequence of packets and stray bytes exactly, in order |
| `Wire.StreamUndoesParse` | src/packet.c:10-56 | every stream is the encoding of what repeated reading returns, and of a rest on which the reader waits |
| `Wire.StreamIsInjective` | src/packet.c:59-77 | different sequences of packets and stray bytes have different encodings |
| `Wire.ParseGrows` | src/packet.c:10-56 | bytes that arrive later only add packets: reading goes on with what the reader was waiting on |
| `Channels.Channel.WritePacket` | src/packet.c:59-77 | the field-by-field write appends exactly the encoding |
| `Channels.Channel.TakeHeader` | src/packet.c:27-32 | the byte-by-byte loop consumes the header up to and with the first closing bracket |
| `Channels.Channel.ReadPacket` | src/packet.c:3-57 | the routine returns and consumes what the one-read function on values says |
| `Files.RegularFile.Write` | src/io.c:77-94 | the data is appended whatever the offset was, and the offset comes back through an int |
| `Files.OffsetSurvivesIff` | src/io.c:84-88 | the offset is restored if and only if it fits an int, or it does not, the saved value is negative, and it was the new end |
| `Files.LargeOffsetIsLost` | src/io.c:84-88 | an offset of 2^31 is not restored |
| `FileTransfer.PacketsAreSlices` | src/dedicatedServer.c:219-237 | a transfer is floor(n/8192) + 1 fragments and a digest; fragment i is slice i of the file |
| `FileTransfer.TransferOnTheWire` | src/packet.c:132-152 | an example of a fragment and of the digest packet, byte by byte |
| `FileTransfer.TransferSize` | src/dedicatedServer.c:219-237 | a transfer of n bytes takes n + 16 (floor(n/8192) + 1) + 40 bytes on the wire |
| `FileTransfer.FileArrivesWhole` | src/client.c:415-433 | for every content, reassembling the encoded transfer gives the content and the digest, and leaves what followed |
| `FileTransfer.SendFragment` | src/dedicatedServer.c:221-224 | one round sends the next slice, short exactly at the end of the file |
| `FileTransfer.SendFile` | src/dedicatedServer.c:206-238 | the loop writes exactly the encoded packets of the file |
| `FileTransfer.ReceiveFile` | src/client.c:415-443 | the loop stores everything up to the digest packet, at offset 0 throughout, and judges by the digest |
| `FileTransfer.ReadAnswer` | src/client.c:394-447 | the header of the first packet decides between no file, a transfer, and nothing |
| `FileTransfer.Transfer` | src/client.c:415-443 | both loops over one connection: the client has the file, judges it intact, and the connection is drained |
| `Text.Compare` | src/utils.c:6-13 | 0 exactly when the first n bytes agree |
| `Protocol.EveryRequestIsNoted` | src/dedicatedServer.c:118-273 | each request a client can send meets a branch that answers it, a connection only for a connect request |
| `Protocol.ReactsIff` | src/dedicatedServer.c:118-273 | the packets that are answered at all: every message, broadcast and exit, and a connect, download or list request with its own header; all others are passed over |
| `Protocol.RepliesOnTheWire` | src/packet.c:59-77 | an example of each one-packet answer, byte by byte |
| `Protocol.StepKeepsLockstep` | src/dedicatedServer.c:114-278 | no step of either side, in any order, leaves lockstep |
| `Protocol.SessionReadKeeps` | src/dedicatedServer.c:116-273 | the session skips probes, and answers the one request under way |
| `Protocol.SendingMovesBytes` | src/dedicatedServer.c:219-237 | each send moves bytes from what is outstanding to the queue and changes nothing else |
| `Protocol.ReplyIsHeard` | src/client.c:235-282 | the client's read of a one-packet answer gives that packet and leaves the queue empty |
| `Protocol.TransferBegins` | src/client.c:394-416 | the first packet of a transfer is the first fragment, even while later ones are still to be sent |
| `Protocol.TransferGoesOn` | src/client.c:415-443 | each further read keeps stored and outstanding bytes adding up to the file; the digest packet is the last |
| `Protocol.RunKeepsLockstep` | src/dedicatedServer.c:114-278 | every state of every run is in lockstep |
| `Protocol.EveryRunIsFaithful` | src/client.c:231-491 | over every run: an idle client has nothing under way but probes; each download is the offered file, intact; each acknowledgement is the reply to the session's note of that very request and has its type; each refusal follows the note that this file is missing; the session notes one connection, first of all |
| `Protocol.RunNotesWhatIsThere` | src/dedicatedServer.c:204-268 | over every run what the session notes of a file's content, of a missing file or of the listing is what it found when it read a request |
| `Protocol.EveryTextArrives` | src/client.c:228-489 | over every run, for texts that fit into a packet: the session has noted the very name, message or file name that the acknowledged, refused or fulfilled request was about |
| `Protocol.EveryAnswerIsTrue` | src/dedicatedServer.c:139-268 | over every run a download is a file that was found, a refusal follows a look that found none, the reply to a connect request carries the session's name, the reply to a list request the listing, and the others are these empty packets |
| `Protocol.ReadingAgrees` | src/client.c:415-443 | however the queue was filled, the client of the state machine reads on to the same file, the same rest and the same verdict on the digest as the reassembly loop |
| `Protocol.NoDeadlock` | src/client.c:273-282 | while the client waits or receives, one of the two sides can take a step |
| `Protocol.InternalStepsRunOut` | src/dedicatedServer.c:219-229 | every step that is no new request makes a fixed measure smaller |
| `Protocol.Complete` | src/client.c:382-459 | under every scheduling a request that was sent is answered, by an answer to that very request, and lockstep is back |
| `Requests.ConnectRequestsGrow` | src/dedicatedServer.c:117-148 | the connect requests that a stream holds stay there whatever arrives later |
| `Requests.RequestsOnTheWire` | src/packet.c:59-77 | an example of each of the six requests, byte by byte: type, header, length with the low byte first, text |
| `Registry.EraseAtCursor` | src/client.c:510-542 | with distinct descriptors deletion by descriptor deletes the entry it was called for, and keeps the list registered |
| `Registry.RoundMakesProgress` | src/client.c:145-156 | each round shortens what is left of the pass, and leads to the same final list and the same reached peers |
| `Registry.SweepKeepsAlive` | src/client.c:139-164 | a check drops no living peer and keeps their order |
| `Registry.SweepHalvesEveryRun` | src/client.c:139-164 | a check halves every run of dead peers, before, between and behind the living ones, rounding down |
| `Registry.SweepHalvesRuns` | src/client.c:139-164 | in particular it halves the front run and the longest one |
| `Registry.SweepsNeeded` | src/client.c:139-164 | k checks leave exactly the living peers if and only if no run of dead peers was as long as 2^k |
| `Registry.CheckLeavesDeadPeer` | src/client.c:145-156 | of two dead peers side by side a check drops one only |
| `Registry.SweepByPosition` | src/client.c:145-156 | a pass drops exactly the dead peers behind an even number of consecutive dead ones |
| `Registry.ReachedByPosition` | src/client.c:563-590 | a pass reaches exactly the living peers behind an even number of consecutive dead ones, once each, in order |
| `Registry.EveryoneReached` | src/client.c:563-590 | when nobody is dead, a broadcast reaches everyone once, in order, and drops nobody |
| `Registry.CheckHalvesBefore` | src/client.c:145-156 | after a check a living peer is still in the list, behind half as many dead ones |
| `Registry.BroadcastReaches` | src/commandManager.c:23-101 | a broadcast command, which checks first, reaches a peer alive throughout if and only if the number of peers right before it in the checked list that are dead by then is even; the peers dead at the check and at the broadcast may differ |
| `Registry.SteadyBroadcastReaches` | src/commandManager.c:23-101 | when nobody dies in between: if and only if half the number of dead ones right before it, rounded down, is even |
| `Registry.BroadcastMissesPeer` | src/commandManager.c:23-101 | a living peer behind two dead ones is missed, and so is one behind a peer that dies after the check |
| `Registry.SearchRound` | src/client.c:266-294 | a round finds the target, or leads on to the same result with less left to look at |
| `Registry.SearchFindsFirst` | src/client.c:266-294 | the target is the first peer of that name that can be written to; exactly the others of that name before it are dropped |
| `Registry.OthersAre` | src/client.c:266-294 | a search drops peers of that name only, and no others |
| `Registry.AliveAre` | src/client.c:480-503 | those who can be written to are the peers of the list that are not dead |
| `Registry.LowerCasePeerIsMissed` | src/client.c:271-271 | a peer named `mia` is not found by who types `MIA`, one named `MIA` is found as `mia` |
| `Registry.EnterKeepsRegistered` | src/client.c:228-244 | entering a peer of a new port with a new descriptor keeps ports and descriptors distinct |
| `Registry.EnterSucceedsIff` | src/client.c:240-244 | the new peer goes right behind the first, unless the list is empty with its cursor on the right: then it is lost |
| `Registry.NewPeerIsLost` | src/client.c:240-244 | a peer that is to enter an empty list with its cursor on the right sentinel is lost |
| `Commands.MoreToKnown` | src/client.c:149-149 | probes and requests to introduced peers keep the connect request first on every descriptor |
| `Commands.ConnectToNew` | src/client.c:201-233 | a connect request on a new descriptor is the first message there |
| `Commands.ActingIsPolite` | src/commandManager.c:25-185 | every command, the end included, sends probes and whole requests only, keeps the connect request first, and only once, on every descriptor, and lets nothing follow a goodbye |
| `Commands.CommandIsPolite` | src/commandManager.c:12-193 | so does a whole command with its checks |
| `Commands.StaysInTurns` | src/client.c:273-282 | if so far the answer to each request was read from the same descriptor before anything else was written or read, that is still so after more messages with their answers |
| `Commands.OneConnectRequest` | src/client.c:228-233 | all that is written to one descriptor holds exactly one connect request for the session that reads it, or nothing was written |
| `Client.Client.constructor` | src/client.c:7-13 | the client starts with an empty list, its cursor on the left |
| `Client.Client.EraseUser` | src/client.c:510-542 | deletes the first entry of a descriptor and leaves the cursor on its successor, or at the end if there is none |
| `Client.Client.OfferTo` | src/client.c:147-155 | one round of a pass on the linked list is the round on values; a check reads no answer, a broadcast one from each peer it could write to |
| `Client.Client.OfferToAll` | src/client.c:143-156 | the pass terminates although deletion resets the cursor, and ends with the list, the messages and the answers of the pass on values |
| `Client.Client.CheckConnections` | src/client.c:139-164 | a whole check, after which an empty list has its cursor on the left; no answer is read |
| `Client.Client.AskOne` | src/client.c:268-293 | one round of the search on the linked list is the round on values |
| `Client.Client.Ask` | src/client.c:254-309 | the search terminates although deletion resets the cursor; one request goes to the target and nowhere else, and its answer is read |
| `Client.Client.Broadcast` | src/client.c:556-593 | the message goes to exactly the reached peers, in order, and one answer is read from each |
| `Client.Client.FindPort` | src/client.c:174-193 | true exactly when a peer of that port is registered |
| `Client.Client.EnterPeer` | src/client.c:225-244 | the connect request goes out on a new descriptor, and the peer enters the list under the name in the reply |
| `Client.Client.ConnectPort` | src/client.c:166-252 | refuses a registered and the own port; otherwise the outcome of dialling decides, and only success changes anything; the new peer's name is what the session replies |
| `Client.Client.Exit` | src/client.c:475-508 | all living peers are told once, in order, the goodbye of each is read, and all descriptors are closed |
| `Client.Client.End` | src/main.c:53-61 | the end of the program: everyone is told, all descriptors are closed, and the list is freed |
| `Client.Client.Dial` | src/commandManager.c:34-42 | connecting checks once more, and then has the outcome of the connection |
| `Client.Client.Act` | src/commandManager.c:25-185 | each branch has its effect on the list, its messages, the answers it reads, and the descriptors it opens or closes |
| `Client.Client.Execute` | src/commandManager.c:12-193 | the same for a command with its checks |
| `Client.Client.Prompt` | src/main.c:36-43 | over every sequence of commands up to the end: each list is registered with the descriptors open at the time; each list, set of descriptors and record of messages follows from the one before by its command; the answer to each request is read before anything else is written or read; the connect request comes first and once on every descriptor, a goodbye last |
| `Meanings.AskingMeans` | src/commandManager.c:51-160 | SAY, DOWNLOAD and SHOW AUDIOS write one message, to the first peer of that name in the checked list that can be written to, and none if there is none; the session reads it as that very message, a look for that very file, or a request for its list; before that the check probes whom it reaches |
| `Meanings.BroadcastMeans` | src/commandManager.c:91-112 | BROADCAST writes one message to each peer that the pass after the check reaches, in order, and each session reads that very text |
| `Meanings.QuitMeans` | src/main.c:53-61 | EXIT writes one message to exactly the peers of the checked list that can be written to, which each session reads as its end, and closes the descriptors of exactly the checked list |
| `Meanings.ConnectMeans` | src/client.c:166-252 | CONNECT, after two checks that probe: refused as connected exactly when a peer of that port is listed; otherwise the own port and dialling decide; a new peer stands behind the first under the name in its session's reply, and the session notes the user's name |
| `Meanings.OthersMeanNothing` | src/commandManager.c:12-193 | blank input does nothing at all; an unknown command checks and asks nobody |
| `Meanings.LivingPeersStay` | src/commandManager.c:12-193 | no command before the end loses a peer that is alive throughout, and only a new connection adds to what the check leaves |
| `Conversations.AnswerComes` | src/client.c:273-282 | from every state in which the client of a connection is busy there is a run that ends with its answer read, and the client idle, or closed after a goodbye |
| `Conversations.SaidIsUnderWay` | src/packet.c:59-77 | what the client of the state machine says is at once the end of what is under way, and no other step adds to that |
| `Conversations.ClientFollowsProtocol` | src/client.c:139-593 | what a client's whole record shows on one descriptor, messages and answers in order, is what a run of the connection's state machine shows of its client |
| `Roster.EntriesOf` | src/dedicatedServer.c:62-133 | a session is listed once per connect request, one less once it has ended |
| `Roster.ListedIsConnectedIff` | src/dedicatedServer.c:62-133 | the list is that of the connected sessions in order if and only if no session handles two connect requests |
| `Roster.ConnectedIs` | src/dedicatedServer.c:62-133 | what connected means: a session has handled a connect request and has not ended |
| `Roster.ConnectedInOrder` | src/dedicatedServer.c:62-133 | and their order is that of their first connect requests |
| `Roster.EndedSessionStays` | src/dedicatedServer.c:62-133 | a session that connects twice and ends stays in the list |
| `Turns.NextToken` | src/dedicatedServer.c:114-278 | a round takes the next packet or stray byte of the stream, answers that, and ends the session exactly at an exit request |
| `Turns.AnswersAre` | src/dedicatedServer.c:139-268 | what each request is answered with, from the disk of that turn: these packets, the session's name, the listing, or a transfer that puts together to exactly the file of that name |
| `Turns.AloneAnswers` | src/dedicatedServer.c:114-278 | over every schedule a session's output is the answers to the packets that arrived for it, in order, up to where it has got, each from the disk of the turn that read it; it has ended if and only if the last of them was an exit request |
| `Turns.ArrivingIsKept` | src/dedicatedServer.c:117-117 | bytes that arrive are kept behind what is unread for that session, and for no other |
| `Turns.TurnIsTaken` | src/dedicatedServer.c:114-117 | a session that has not ended, and can read, takes each turn it is given, which reads one packet or stray byte from that turn's disk |
| `Turns.EverythingIsAnswered` | src/dedicatedServer.c:114-278 | once nothing more arrives for a session and it has had as many turns as packets arrived, all of them up to the first exit request are answered, whatever the others did meanwhile |
| `Turns.RequestsCounted` | src/dedicatedServer.c:117-148 | each connect request that a session reads is one fewer that it has yet to read |
| `Turns.ConnectsAddUp` | src/dedicatedServer.c:114-278 | conservation over every schedule: the connect requests a session has handled and those it has yet to read are those that arrived, whatever may still follow |
| `Turns.EndIsRecorded` | src/dedicatedServer.c:62-83 | the history holds the end of a session if and only if it has ended |
| `Turns.OneEachIsOnce` | src/dedicatedServer.c:117-148 | when each stream holds one connect request at most, no session connects twice, whatever the schedule |
| `Turns.ProtocolAgrees` | src/dedicatedServer.c:118-273 | the session of the connection protocol writes what a round of the session loop writes |
| `Sessions.DedicatedServer.Enter` | src/dedicatedServer.c:125-135 | the session's entry goes to the end of the shared list |
| `Sessions.DedicatedServer.RemoveOwnEntry` | src/dedicatedServer.c:64-82 | the first entry with the session's descriptor goes, through the session's own handle |
| `Sessions.DedicatedServer.Close` | src/dedicatedServer.c:51-97 | goodbye is sent, the entry goes, the session ends |
| `Sessions.DedicatedServer.Answer` | src/dedicatedServer.c:139-268 | what is written for a noted event is its reply, or the whole transfer |
| `Sessions.DedicatedServer.Round` | src/dedicatedServer.c:114-278 | one round reads one packet or stray byte, answers it, and changes the list as the event says |
| `Sessions.DedicatedServer.ThreadFunc` | src/dedicatedServer.c:99-282 | on any stream, with files that may change in every round, the loop writes the answers to the packets that repeated reading finds, in order, up to the first exit request, which ends it; what it has not read stays |
| `Sessions.Server.constructor` | src/server.c:3-17 | the server starts with an empty list and no sessions |
| `Sessions.Server.RunningIsReady` | src/dedicatedServer.c:125-135 | in every valid state a session that has not ended can use its copy of the handle: its cursor is on the shared right sentinel |
| `Sessions.Server.StartSession` | src/server.c:82-92 | a new session shares the chain through its own, new copy of the handle, and has the given connection |
| `Sessions.Server.StillExact` | src/dedicatedServer.c:62-133 | each entry stays that of a session that has not ended, with its descriptor and name, as long as no listed session connects again |
| `Sessions.Server.Turn` | src/dedicatedServer.c:114-278 | a round of one session leaves all handles valid, and the list is what the events so far make of it |
| `Sessions.Server.Accept` | src/server.c:94-119 | an accepted connection gets a session of its own; everything else stays as it is |
| `Sessions.Server.Arrive` | src/dedicatedServer.c:117-117 | bytes that arrive reach the session of that descriptor only |
| `Sessions.Server.Go` | src/dedicatedServer.c:114-278 | a turn changes the session of that descriptor only, as it would without the others, and the history by what it noted |
| `Sessions.Serve` | src/server.c:94-119 | from the start, over every schedule of accepted connections, arriving bytes and turns: all handles stay valid, each session is as it would be alone, and the shared list holds exactly the connected sessions in order if and only if none connected twice, which cannot happen when each stream holds one connect request at most |
| `Sessions.Server.RosterIsExactIff` | src/dedicatedServer.c:62-133 | the same for every valid state |
| `Sessions.Server.CloseAll` | src/server.c:128-141 | the drain loop terminates, with the length of the chain as its measure, and closes the listed sessions in order; each gets a goodbye, and no other session a byte |
| `Sessions.Server.CloseFirst` | src/server.c:130-140 | a round of the drain loop closes the first listed session through that session's handle, writes it a goodbye, and writes nothing to any other |
| `Sessions.Server.RemoveAll` | src/server.c:121-148 | terminates; exactly the listed sessions are closed, each once, in order, with a goodbye, and the list is freed |
| `Network.ClientsConnectOnce` | src/client.c:228-233 | when every stream comes from a client of this program, each holds one connect request at most |
| `Network.ServeClients` | src/server.c:94-158 | with such clients, over every schedule, closing the server closes exactly the sessions that have connected and not ended, each once, in the order in which they connected; each session's output is what it writes without the others, and a goodbye if it was closed |
| `Text.CompareCaseInsensitive` | src/utils.c:34-55 | 0 exactly when the lengths and all characters match, in the code's one-sided sense |
| `Text.MatchesIff` | src/utils.c:34-55 | for all texts of equal length: accepted if and only if each pair of characters is equal up to case and not lower against upper, or the second is no lower-case letter and lies 32 above the first |
| `Text.MatchesKeepsPromiseIff` | src/utils.c:34-55 | a registered name is compared up to case with everything that may be typed if and only if each of its characters is a capital or one of codes 96, 123 to 127 and 224 |
| `Text.LowerCaseNameIsMissed` | src/client.c:271-271 | a peer named `mia` is not found as `MIA`, though `MIA` is found as `mia` |
| `Text.OtherNameIsTaken` | src/client.c:271-271 | a peer named `mia1` is found as `miaQ` |
| `Text.KeywordsMatchInAnyCase` | src/commandManager.c:25-50 | a command word in capitals matches exactly the words equal to it up to case, for all words |
| `Text.WithoutCounts` | src/utils.c:88-94 | the filter keeps every other character as often as it was |
| `Text.WithoutAppend` | src/utils.c:88-94 | the filter works piece by piece, so it keeps the order |
| `Text.RemoveChar` | src/utils.c:88-94 | the repeated shift in place terminates and leaves exactly the text without the character, in order |
| `Listing.ShowFiles` | src/dedicatedServer.c:284-326 | the answer is the names of the non-directories in reverse order joined by newlines; cutting it at the newlines gives these names back when no name holds one |
| `Listing.FileNamesAre` | src/dedicatedServer.c:302-306 | an entry gives its name unless it is a directory, and the names of a listing are those of its entries, in order |
| `Listing.SplitUndoesJoin` | src/dedicatedServer.c:302-319 | cutting the answer at newlines gives every name back |
| `PortScan.AtoiReadsDecimal` | src/client.c:74-74 | reading a printed number gives the number |
| `PortScan.Pipe.CheckEOF` | src/io.c:101-112 | on a pipe the test for the end swallows a byte |
| `PortScan.ReadPort` | src/client.c:69-77 | a line of which one or two bytes are gone still yields its port |
| `PortScan.ReadPorts` | src/client.c:64-86 | reading the script's output gives exactly the printed ports |

## Left out

- Channels.Channel.ReadPacket: end of stream and short reads are not modelled, because what the program returns then depends on uninitialised bytes; the same holds for the readers in `PortScan`.
- LinkedList.Handle.Query: on a sentinel the program returns an uninitialised element, so the model asks for a cursor on an element.
- LinkedList.Handle.InsertAfter: allocation never fails in the model; the same holds for the other insertion and for a new list.
- Listing.SplitUndoesJoin: a directory without files is excluded, because the program then answers with an uninitialised buffer.
- PortScan.ReadPorts: the capacity of the result array is a parameter, and more ports than fit are excluded; the program's array has ten places and is not guarded.
- Text.ShiftLeft: the overlapping copy is modelled as moving bytes to the left, in order.
- Protocol.Step: the goodbye that a closing server writes to a session from another thread is not a step of the connection.
- Protocol.React: a download request that names a directory is not modelled; the program finds it, cannot read it, and sends a length field of 65535 for the result -1 (src/dedicatedServer.c:204-222).
- Client.Client.Ask: a peer that dies between taking a request and answering it is not modelled; of the answer to a download this routine reads the first packet, and the others are read in `FileTransfer.ReceiveFile`.
- Sessions.Server.Accept: a failed accept is not modelled; the program then starts a session on a negative descriptor, and what that makes of its failing reads depends on uninitialised bytes (src/packet.c:10-24). The bytes of a connection arrive after it was accepted; earlier ones wait in the kernel and come to the same.
- Turns.AloneAnswers: the name of the audio folder is one global that every session sets when it starts and frees when it ends (src/dedicatedServer.c:3, 58, 109), so that after one session has ended the others' downloads and listings read freed memory; the model gives each turn a disk instead.
- Sockets, fork, pipes, signals, thread cancellation, the copied mutex and screen output: operating-system plumbing.
- The MD5 computation: an external program.
- Zero bytes inside user texts, buffer sizes and freed memory of strings: memory handling. Freed sessions and list nodes are modelled.
- `strtok`, the command keywords' dispatch, error texts, and `SHOW CONNECTIONS` beyond its check and the reading of ports: they do not touch the registry.
- `UTILS_valid_digit`, whose loop never runs, `src/config.c`, `src/network.c` and the getters: they would add only easy members.
