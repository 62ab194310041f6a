# Heartbeat node and multicast chat peer, modelled in Dafny

This project models two small peer-to-peer LAN programs.

- **Heartbeat node** (`Heartbeat/src/Node.java`, `Heartbeat/src/NodeDirectory.java`). Every node
  broadcasts `HEARTBEAT;<id>;<timestampMs>;<ip>;<port>` to a multicast group. It keeps the last
  receive time of each heartbeat in `lastHeartbeat` and the announced contact in a peer
  directory. Its failure detector reports every peer silent for more than 3000 ms. The console
  command `msg <id> <text>` sends `MSG;<fromId>;<toId>;<text>` to a peer's unicast port, and the
  destination surfaces the message only when it is addressed to it.
- **Multicast chat peer** (`Multicast/src/MulticastChatPeer.java`). Peers exchange
  `type|sender|timestamp|payload` datagrams. Each peer remembers who it has heard from and keeps
  the last 50 chat lines in a deque. It answers a `HISTORY_REQUEST` that names it, and it shuts
  down on `/quit` or on a `SHUTDOWN` message.

Modules:

| file | module | what it holds |
|---|---|---|
| `java_text.dfy` | `JavaText` | The Java library behaviour the code relies on, written over `seq<char>`: `trim`, `split` with limit 0, with a positive limit and on `\s+`, `Integer.parseInt` / `Long.parseLong`, `Integer.toString`, ASCII `toLowerCase` / `equalsIgnoreCase`, `startsWith`, `compareTo`. |
| `node_directory.dfy` | `NodeDirectory` | `Contact` and the `Directory` class: `put`, `get`, `dump`. |
| `heartbeat_wire.dfy` | `HeartbeatWire` | The heartbeat and direct-message formats, their decoders, the `msg` command parser and the failure-scan function `Suspects`, with their lemmas. |
| `heartbeat_node.dfy` | `HeartbeatNode` | The `Node` class. There is one method per iteration of each thread loop, plus `dumpNodes` and `shutdown`. |
| `chat_wire.dfy` | `ChatWire` | `pack` / `unpack`, the history entry text and the history reply text, with their lemmas. |
| `chat_peer.dfy` | `ChatPeer` | The `Peer` class: `addToHistory`, `isLowestKnownId`, one receive step, one console step, `announceHello`, `initiateShutdown`. |

How the model represents the environment:

- Each thread's loop body is one method call. A loop that has ended answers `LoopEnded`,
  `ConsoleEnded`, `ReceiverStopped` or `ConsoleStopped` and changes nothing.
- The clock (`System.currentTimeMillis`, `Instant.now`) and the local ip address are parameters.
- A sent datagram is appended to a sequence (`Node.sent`, `Peer.outbox`).
- `Integer.parseInt` failures are not caught by the Java threads. The model returns them as the
  value `NumberFormatError` (heartbeat and unicast receivers) or `MsgBadId` (console). Both maps
  are then left unchanged, and a per-thread flag (`multicastReceiverAlive`, `unicastReceiverAlive`,
  `consoleAlive`) records that the thread died.
- The chat peer's history deque is specified against a ghost `log` of every entry ever added:
  `history` is always the newest 50 entries of `log`, in order.

In a few places the code behaves differently from what a reader might expect. The model follows
the code:

- One might expect a malformed packet to be dropped while the node carries on. In the code, a
  heartbeat or `MSG` packet with a bad id or port throws `NumberFormatException`, which ends that
  receive thread for good (`Heartbeat/src/Node.java:176-178`, `191-193`).
- One might expect unrecognised console commands to print a usage hint. In the code, only a
  `msg` line with fewer than three tokens prints it. Any other unknown line is ignored
  (`OtherLine`), and a `msg` line with a bad id ends the console thread.
- One might expect the directory to belong to the node. In the code, `NodeDirectory` is
  static, so it is shared by everything in the process. The model gives each `Node` its own
  `Directory`, which is the same thing for the one node a process runs.

## Model

| member | source | states |
|---|---|---|
| `NodeDirectory.Directory.constructor` | Heartbeat/src/NodeDirectory.java:5 | The directory starts empty. |
| `NodeDirectory.Directory.Put` | Heartbeat/src/NodeDirectory.java:6-8 | Unconditional upsert: the id now maps to exactly `(ip, port)`. Every other id keeps its entry and its presence, and no id disappears. |
| `NodeDirectory.Directory.Get` | Heartbeat/src/NodeDirectory.java:9-11 | Returns not-found (`null`) exactly for an id that is not stored; otherwise returns the stored contact. |
| `NodeDirectory.Directory.Dump` | Heartbeat/src/NodeDirectory.java:12-16 | Visits every stored id exactly once, in some order, with the line `Node <id> -> <ip>:<port>` for that id. The map is only read. |
| `HeartbeatNode.Node.constructor` | Heartbeat/src/Node.java:26-40 | `lastHeartbeat` is seeded with only the node's own id at start-up time. The directory is empty and every thread is live. |
| `HeartbeatNode.Node.OnMulticastPacket` | Heartbeat/src/Node.java:172-185 | The trimmed packet is decoded by `DecodeHeartbeat`. If accepted, `lastHeartbeat[id]` becomes the receive time (not the embedded timestamp) and the directory entry becomes `(parts[3], parts[4])`; nothing else changes. If not accepted, neither map changes. A bad number ends the receive loop. The node invariant is kept. |
| `HeartbeatNode.Node.OnUnicastPacket` | Heartbeat/src/Node.java:187-198 | The trimmed packet is decoded by `DecodeUnicast` with this node's id. A bad number ends the loop, and nothing else changes. |
| `HeartbeatNode.Node.HeartbeatTick` | Heartbeat/src/Node.java:105-114 | While running, exactly one datagram `HEARTBEAT;<myId>;<now>;<ip>;<unicastPort>` is sent to the group. Otherwise nothing is sent. |
| `HeartbeatNode.Node.ScanForFailures` | Heartbeat/src/Node.java:116-132 | The loop over the entries alerts exactly the map `Suspects(lastHeartbeat, myId, now)`, with each peer's silence, and never writes `lastHeartbeat`. |
| `HeartbeatNode.Node.DumpNodes` | Heartbeat/src/Node.java:200-203 | Prints the header `Current node: <id> unicastPort=<port>`, then one line per directory entry, as `Dump` does. |
| `HeartbeatNode.Node.Shutdown` | Heartbeat/src/Node.java:205-206 | Compare-and-set: the call acts exactly when the node was running, and afterwards it is not running. |
| `HeartbeatNode.Node.OnConsoleLine` | Heartbeat/src/Node.java:141-167 | One outcome per trimmed command. `exit` shuts down and ends the console. `list` gives the header and a listing of the directory. `msg` with fewer than three tokens gives usage and sends nothing. A bad id ends the console. An unknown id gives "not found" and sends nothing. A known id whose stored port is outside 0..65535 makes the packet constructor in `sendUnicastMsg` (Node.java lines 53-59) throw `IllegalArgumentException`; nothing catches it, so the console ends and nothing is sent. A known id with a valid port sends exactly `MSG;<myId>;<destId>;<text>` to that contact's ip and port. Any other line does nothing. |
| `HeartbeatWire.HeartbeatFields` | Heartbeat/src/Node.java:174 | `split(";")` reads five `;`-free fields back exactly, provided the last one is not empty. |
| `HeartbeatWire.HeartbeatSplit` | Heartbeat/src/Node.java:174-175 | A packet of the heartbeat layout splits into `HEARTBEAT` and its four fields. |
| `HeartbeatWire.HeartbeatIgnoresTimestamp` | Heartbeat/src/Node.java:176-181 | Only the id and port fields are parsed. Any `;`-free timestamp text, numeric or not, is accepted. |
| `HeartbeatWire.HeartbeatRoundTrip` | Heartbeat/src/Node.java:174-181 | The payload the sender builds (line 108), once trimmed, decodes to the sender's id, ip and unicast port, for an ip without `;`. |
| `HeartbeatWire.HeartbeatExtraFieldsIgnored` | Heartbeat/src/Node.java:174-178 | Fields after the fifth do not change the decision. |
| `HeartbeatWire.ExtendedSplitPrefix` | Heartbeat/src/Node.java:174 | With further fields, the limit-0 split still begins with the five fields. |
| `HeartbeatWire.DecodeByFirstFive` | Heartbeat/src/Node.java:175-178 | The decision depends only on the first five fields. |
| `HeartbeatWire.HeartbeatNeedsPrefixAndFields` | Heartbeat/src/Node.java:174-175 | Any packet that is not dropped starts with `HEARTBEAT;` and holds at least four `;`. Anything else leaves both maps alone. |
| `HeartbeatWire.HeartbeatBadNumber` | Heartbeat/src/Node.java:176-178 | A well-shaped heartbeat whose id or port is not an `int` raises NumberFormatException. |
| `HeartbeatWire.EmptyPacketExample` | Heartbeat/src/Node.java:174-175 | The empty packet is a single empty field and is dropped. |
| `HeartbeatWire.UnicastRoundTrip` | Heartbeat/src/Node.java:189-196 | The payload `msg` builds (line 163) is surfaced at its destination with the sender's id and the text unchanged, `;` included. |
| `HeartbeatWire.UnicastForOtherPeer` | Heartbeat/src/Node.java:191-193 | A packet for another id is dropped before the sender field is parsed, so a malformed sender raises nothing. |
| `HeartbeatWire.UnicastAcceptedShape` | Heartbeat/src/Node.java:189-194 | Converse of the round trip. A surfaced message came from exactly `MSG;<from>;<to>;<text>`, where `<to>` parses to this node's id and `<from>` to the sender. |
| `HeartbeatWire.MsgCommandParses` | Heartbeat/src/Node.java:150-157 | `msg <id> <text>` names the destination id and keeps the text verbatim, inner whitespace included. |
| `HeartbeatWire.MsgWithoutTextIsUsage` | Heartbeat/src/Node.java:151-155 | `msg <id>` without a text token is a usage error. |
| `HeartbeatWire.MsgEndToEnd` | Heartbeat/src/Node.java:156-164 | A console line `msg <destId> <text>` gives a packet that the destination surfaces as a message from this node carrying exactly `<text>`. |
| `HeartbeatWire.FreshHeartbeatClearsSuspicion` | Heartbeat/src/Node.java:119-126 | After a heartbeat received at `t`, its sender is not alerted in any scan up to `t + 3000`. Every other id's verdict is unchanged. |
| `HeartbeatWire.SuspicionPersists` | Heartbeat/src/Node.java:119-126 | Without new heartbeats, a suspected peer stays suspected in every later scan, and its reported silence never shrinks. |
| `HeartbeatWire.NeverSuspectSelf` | Heartbeat/src/Node.java:122 | The local node is never alerted. |
| `ChatWire.TypeOf` | Multicast/src/MulticastChatPeer.java:84 | `Type.valueOf` accepts only the exact constant names. A name it accepts is the name of the type it returns. |
| `ChatWire.TypeNameParses` | Multicast/src/MulticastChatPeer.java:33 | Every type's name parses back to that type and contains no vertical bar. |
| `ChatWire.PackFields` | Multicast/src/MulticastChatPeer.java:81 | The limit-4 split of a packed message is exactly the type name, the sender, the timestamp text and the payload. |
| `ChatWire.PackUnpack` | Multicast/src/MulticastChatPeer.java:66-88 | Round trip: for a sender without a vertical bar, `unpack(pack(t, p))` gives type `t`, the sender, the packing time, and payload `p` (`""` for null), even when `p` contains vertical bars. |
| `ChatWire.UnpackNeedsFourFields` | Multicast/src/MulticastChatPeer.java:81-82 | A datagram with fewer than three vertical bars unpacks to `null`. |
| `ChatWire.UnpackUnknownType` | Multicast/src/MulticastChatPeer.java:84-86 | A first field that is not a type name unpacks to `null`. |
| `ChatWire.UnpackBadTimestamp` | Multicast/src/MulticastChatPeer.java:84-86 | A timestamp field that is not a `long` unpacks to `null`, whatever the type. |
| `ChatWire.UnpackShape` | Multicast/src/MulticastChatPeer.java:79-88 | Converse of the round trip: a datagram that unpacks is exactly the type name, the sender, a timestamp text and the payload joined by vertical bars, with the timestamp text parsing to the timestamp. The decoded sender has no vertical bar, so the decoded message can be packed again. |
| `ChatWire.LinesSnoc` | Multicast/src/MulticastChatPeer.java:133 | Appending one entry adds `"\n" + entry` at the end of the reply text. |
| `ChatWire.SplitLines` | Multicast/src/MulticastChatPeer.java:132-133 | A header followed by `"\n" + h` for each entry splits on newlines back into the header and the entries, when none of them contains a newline. |
| `ChatWire.HistoryReplyLines` | Multicast/src/MulticastChatPeer.java:132-133 | The reply reads, line by line, as `HISTORY for <peerId>` followed by every entry, oldest first. |
| `ChatPeer.Newest` | Multicast/src/MulticastChatPeer.java:30 | The history window holds the smaller of the log's length and 50 entries. |
| `ChatPeer.NewestAppend` | Multicast/src/MulticastChatPeer.java:95-98 | Taking the newest entries commutes with appending: appending an entry to the window and then taking the newest 50 equals appending it to the whole log and taking the newest 50. |
| `ChatPeer.Peer.constructor` | Multicast/src/MulticastChatPeer.java:35-42 | Empty known-peer set, history and outbox; not shutting down. |
| `ChatPeer.Peer.AddToHistory` | Multicast/src/MulticastChatPeer.java:95-98 | The new entry goes last. When the deque is full, exactly the oldest entry is removed and the rest keep their order. The size stays at most 50, and the history is always the newest 50 entries ever added. |
| `ChatPeer.Peer.IsLowestKnownId` | Multicast/src/MulticastChatPeer.java:100-105 | True exactly when `peerId` is `compareTo`-less-or-equal to every known peer. The known-peer set is only read. |
| `ChatPeer.AtMostOneLowest` | Multicast/src/MulticastChatPeer.java:100-105 | Two peers that have heard from each other cannot both be lowest, unless they have the same id. |
| `ChatPeer.Peer.HistoryReport` | Multicast/src/MulticastChatPeer.java:132-133 | The `StringBuilder` loop builds exactly `HistoryReply(peerId, history)`. |
| `ChatPeer.Peer.InitiateShutdown` | Multicast/src/MulticastChatPeer.java:203-204 | Compare-and-set: only the first call acts, and afterwards the peer is shutting down. |
| `ChatPeer.Peer.AnnounceHello` | Multicast/src/MulticastChatPeer.java:199-201 | Sends exactly one `HELLO` with payload `Hello from <peerId>`. |
| `ChatPeer.Peer.OnDatagram` | Multicast/src/MulticastChatPeer.java:110-146 | Once shut down the loop has ended. A datagram that does not unpack changes nothing. Any other adds its sender to the known peers. `CHAT` adds `[sender] payload` to the history. `HISTORY_REQUEST` is answered with the current history exactly when its trimmed payload equals `peerId` ignoring case. `SHUTDOWN` starts the shutdown. Nothing else changes. |
| `ChatPeer.Peer.Handle` | Multicast/src/MulticastChatPeer.java:117-146 | The switch on a decoded message. Its sender joins the known peers. `CHAT` adds `[sender] payload` to the history. `HISTORY_REQUEST` is answered with the current history exactly when its trimmed payload equals `peerId` ignoring case. `SHUTDOWN` starts the shutdown. Nothing else changes, and the history stays the newest 50 entries. |
| `ChatPeer.Peer.OnConsoleLine` | Multicast/src/MulticastChatPeer.java:161-175 | The trimmed line is classified. A blank line is skipped. `/quit` in any case shuts down. `/get <id>` sends one `HISTORY_REQUEST` naming `<id>`. Any other line is sent as `CHAT` and then added to the history as `[peerId] line`. |
| `ChatPeer.GetCommand` | Multicast/src/MulticastChatPeer.java:168-170 | `/get <id>`, with the command word in any letter case, asks for exactly the named peer's history. |
| `ChatPeer.ChatLineCommand` | Multicast/src/MulticastChatPeer.java:171-173 | A non-blank line that does not start with `/` is sent as chat, trimmed. |
| `JavaText.TrimIsInfix` | Heartbeat/src/Node.java:71 | `trim` keeps a contiguous part of its input. Every char it removes before and after that part is at or below U+0020, and the part neither starts nor ends with such a char. |
| `JavaText.SplitAllJoin` | Heartbeat/src/Node.java:174 | Splitting the join of delimiter-free pieces gives back exactly those pieces. |
| `JavaText.SplitAllLength` | Heartbeat/src/Node.java:174 | A full split has one more piece than there are delimiters. |
| `JavaText.SplitNJoin` | Heartbeat/src/Node.java:189 | Joining the pieces of a limited split rebuilds the string, so no character is lost. |
| `JavaText.SplitNLength` | Multicast/src/MulticastChatPeer.java:81-82 | A limited split has one more piece than there are delimiters, capped by the limit. |
| `JavaText.ParseIntOfString` | Heartbeat/src/Node.java:176 | `Integer.parseInt` reads the decimal text of any `int` back to that `int`. |
| `JavaText.SplitNLeadingFree` | Multicast/src/MulticastChatPeer.java:81-82 | Every piece of a limited split except the last is free of the delimiter. |
| `JavaText.ParseLongOfString` | Multicast/src/MulticastChatPeer.java:84 | `Long.parseLong` reads the decimal text of any `long` back to that `long`. |
| `JavaText.LexLeTransitive` | Multicast/src/MulticastChatPeer.java:104 | `compareTo(...) <= 0` is transitive, which makes the stream minimum well defined. |
| `JavaText.LexLeTotal` | Multicast/src/MulticastChatPeer.java:104 | Any two strings are ordered by `compareTo` one way or the other. |
| `JavaText.LexLeAntisymmetric` | Multicast/src/MulticastChatPeer.java:104 | Two strings that are each `compareTo`-at-most the other are equal. |

## Left out

- Sockets are not modelled. This covers `DatagramSocket` / `MulticastSocket` creation, `joinGroup` / `leaveGroup`, TTL, interface lookup, and closing the sockets on shutdown. A closed socket shows up only as the "loop ended" step results.
- An `IOException` from `send` is not modelled. In the chat console it would end the console thread.
- Host name lookup is not modelled: every contact's ip is taken to resolve. In the heartbeat console a failed `InetAddress.getByName` throws `UnknownHostException`, an `IOException` that `sendUnicastMsg` catches, and nothing is sent.
- Threads, `Thread.sleep`, daemon flags and `Thread.join` are not modelled. Each loop body is one sequential step, and the `AtomicBoolean`s are plain fields.
- The random delay in `scheduleShutdownCoordinator` is not modelled, because the scheduled task has no effect.
- `System.exit(0)` in `initiateShutdown` is modelled only as the peer stopping: its receive and console steps answer `ReceiverStopped` / `ConsoleStopped`.
- Console input (`Scanner`, `BufferedReader`, end of input) and all printing other than the payloads, the `list` header and the `dump` lines are not modelled. The received `HELLO` and `HISTORY_RESPONSE` messages are only printed in the source, so the model delivers them and changes nothing else.
- UTF-8 conversion is not modelled; packets are strings. The receive buffers (2048 and 8192 bytes) that truncate longer datagrams are not modelled either.
- Java's `Character.digit` accepts non-ASCII digits in `parseInt` / `parseLong`, and Java's case mapping covers all of Unicode. These are left out. Digits are `0`-`9`, case folding is ASCII, and `toLowerCase` keeps the length, so `substring(5)` after `/get ` lines up.
- `JavaText.LexLe`: compares chars as `seq<char>` elements rather than UTF-16 code units, so surrogate pairs can order differently.
- `ChatPeer.Peer.IsLowestKnownId`: the source never calls `isLowestKnownId`. It is modelled for its own contract only.
- `HeartbeatWire.Suspects`: `now - last` is computed on unbounded integers. Java `long` subtraction could wrap, but only for timestamps about 2^63 ms apart.
- `Heartbeat/src/Heartbeat.java` (argument parsing and start-up wiring) and `Heartbeat/src/InetAddressInfo.java` (the local ip lookup, which is a parameter here) are not part of this model.
