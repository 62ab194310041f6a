/**
 * One multicast chat peer: the set of peers heard from, the bounded chat history,
 * the shutdown flag and the datagrams it sends (`outbox`). The receiver's switch and
 * the console's command handling are one method per loop iteration; the clock is a
 * parameter.
 */
module ChatPeer {
  import opened JavaText
  import opened ChatWire

  /** Capacity of the history deque. */
  const HISTORY_SIZE: nat := 50

  /** The newest `n` elements of `s`, oldest of them first. */
  function Newest<T>(s: seq<T>, n: nat): (r: seq<T>)
    ensures |r| == if |s| <= n then |s| else n
  {
    if |s| <= n then s else s[|s| - n..]
  }

  /** `id` is lexicographically at or below every id in `ids`. */
  ghost predicate IsLowest(id: string, ids: set<string>)
  {
    forall other :: other in ids ==> LexLe(id, other)
  }

  /** How the console reads a line: trimmed; blank lines are skipped; `/quit` in any
      case; `/get <id>` with the command word in any case; anything else is chat. */
  datatype ChatCommand = Blank | Quit | GetHistory(target: string) | ChatLine(text: string)

  function ClassifyLine(line: string): ChatCommand
  {
    var l := Trim(line);
    if l == [] then Blank
    else if EqualsIgnoreCase(l, "/quit") then Quit
    else if StartsWith(ToLower(l), "/get ") then GetHistory(Trim(l[5..]))
    else ChatLine(l)
  }

  /** One iteration of the receive loop: the socket was already closed by a shutdown,
      the datagram did not unpack, or the message that was handled. */
  datatype Delivery = ReceiverStopped | Ignored | Delivered(msg: Msg)

  /** One iteration of the console loop. */
  datatype ConsoleStep = ConsoleStopped | Handled(cmd: ChatCommand)

  class Peer {
    const peerId: string
    var knownPeers: set<string>
    var history: seq<string>
    /** Every entry ever added to the history, oldest first. */
    ghost var log: seq<string>
    var shuttingDown: bool
    var outbox: seq<string>

    /** The history deque holds exactly the newest (at most 50) entries ever added,
        in the order they were added. */
    ghost predicate Valid()
      reads this
    {
      history == Newest(log, HISTORY_SIZE)
    }

    constructor (peerId: string)
      ensures Valid()
      ensures this.peerId == peerId && knownPeers == {} && history == [] && log == []
      ensures !shuttingDown && outbox == []
    {
      this.peerId := peerId;
      knownPeers := {};
      history := [];
      log := [];
      shuttingDown := false;
      outbox := [];
    }

    /** `addToHistory`: when the deque is full its oldest entry is removed first; the
        new entry goes last. */
    method AddToHistory(entry: string)
      requires Valid()
      modifies this`history, this`log
      ensures Valid()
      ensures log == old(log) + [entry]
      ensures |history| <= HISTORY_SIZE && history[|history| - 1] == entry
      ensures |old(history)| == HISTORY_SIZE ==> history == old(history)[1..] + [entry]
      ensures |old(history)| < HISTORY_SIZE ==> history == old(history) + [entry]
    {
      if |history| == HISTORY_SIZE {
        history := history[1..];
      }
      history := history + [entry];
      log := log + [entry];
      NewestAppend(old(log), entry, HISTORY_SIZE);
    }

    /** `isLowestKnownId`: the minimum of a copy of the known peers plus this peer,
        by `compareTo`, compared with this peer's id. */
    method IsLowestKnownId() returns (lowest: bool)
      ensures lowest <==> IsLowest(peerId, knownPeers)
    {
      var ids := knownPeers + {peerId};
      var rest := ids;
      var min: Option<string> := None;
      while rest != {}
        invariant rest <= ids
        invariant min.None? <==> rest == ids
        invariant min.Some? ==> min.value in ids && IsLowest(min.value, ids - rest)
        decreases rest
      {
        var x :| x in rest;
        LexLeReflexive(x);
        if min.None? {
          min := Some(x);
        } else if !LexLe(min.value, x) {
          LexLeTotal(min.value, x);
          forall y | y in ids - rest
            ensures LexLe(x, y)
          {
            LexLeTransitive(x, min.value, y);
          }
          min := Some(x);
        }
        rest := rest - {x};
      }
      assert peerId in ids;
      var m := min.value;
      lowest := peerId == m;
      if IsLowest(peerId, knownPeers) {
        LexLeReflexive(peerId);
        LexLeAntisymmetric(peerId, m);
      }
    }

    /** The reply text built with a StringBuilder: the header, then `"\n" + h` for
        every history entry, oldest first. */
    method HistoryReport() returns (r: string)
      ensures r == HistoryReply(peerId, history)
    {
      r := "HISTORY for " + peerId;
      for i := 0 to |history|
        invariant r == "HISTORY for " + peerId + Lines(history[..i])
      {
        LinesSnoc(history[..i], history[i]);
        assert history[..i + 1] == history[..i] + [history[i]];
        r := r + "\n" + history[i];
      }
      assert history[..|history|] == history;
    }

    /** `initiateShutdown`: only the call that flips the flag acts. */
    method InitiateShutdown() returns (acted: bool)
      modifies this`shuttingDown
      ensures acted == !old(shuttingDown)
      ensures shuttingDown
    {
      acted := !shuttingDown;
      shuttingDown := true;
    }

    /** `announceHello`: the HELLO sent at start-up. */
    method AnnounceHello(now: Int64)
      modifies this`outbox
      ensures outbox == old(outbox) + [Pack(HELLO, peerId, now, Some("Hello from " + peerId))]
    {
      outbox := outbox + [Pack(HELLO, peerId, now, Some("Hello from " + peerId))];
    }

    /** One iteration of the receive loop on a datagram received at `now`. A datagram
        that does not unpack changes nothing; any other is handled by `Handle`. */
    method OnDatagram(raw: string, now: Int64) returns (d: Delivery)
      requires Valid()
      modifies this`knownPeers, this`history, this`log, this`shuttingDown, this`outbox
      ensures Valid()
      ensures d == if old(shuttingDown) then ReceiverStopped
                   else if Unpack(raw).None? then Ignored
                   else Delivered(Unpack(raw).value)
      ensures !d.Delivered? ==>
        && knownPeers == old(knownPeers) && history == old(history) && log == old(log)
        && shuttingDown == old(shuttingDown) && outbox == old(outbox)
      ensures d.Delivered? ==> knownPeers == old(knownPeers) + {d.msg.sender}
      ensures d.Delivered? ==>
        log == if d.msg.kind == CHAT then old(log) + [ChatEntry(d.msg.sender, d.msg.payload)] else old(log)
      ensures d.Delivered? && d.msg.kind != CHAT ==> history == old(history)
      ensures d.Delivered? ==>
        outbox == if d.msg.kind == HISTORY_REQUEST && EqualsIgnoreCase(peerId, Trim(d.msg.payload))
                  then old(outbox) + [Pack(HISTORY_RESPONSE, peerId, now, Some(HistoryReply(peerId, old(history))))]
                  else old(outbox)
      ensures d.Delivered? ==> shuttingDown == (d.msg.kind == SHUTDOWN)
    {
      if shuttingDown {
        return ReceiverStopped;
      }
      var unpacked := Unpack(raw);
      if unpacked.None? {
        return Ignored;
      }
      d := Delivered(unpacked.value);
      Handle(unpacked.value, now);
    }

    /** The receiver's switch on a decoded message `m`, while not shutting down: its
        sender is recorded; CHAT adds `[sender] payload` to the history;
        HISTORY_REQUEST is answered, with the history as it is, only when its trimmed
        payload names this peer ignoring case; SHUTDOWN starts the shutdown. */
    method Handle(m: Msg, now: Int64)
      requires Valid() && !shuttingDown
      modifies this`knownPeers, this`history, this`log, this`shuttingDown, this`outbox
      ensures Valid()
      ensures knownPeers == old(knownPeers) + {m.sender}
      ensures log == if m.kind == CHAT then old(log) + [ChatEntry(m.sender, m.payload)] else old(log)
      ensures m.kind != CHAT ==> history == old(history)
      ensures outbox == if m.kind == HISTORY_REQUEST && EqualsIgnoreCase(peerId, Trim(m.payload))
                        then old(outbox) + [Pack(HISTORY_RESPONSE, peerId, now, Some(HistoryReply(peerId, old(history))))]
                        else old(outbox)
      ensures shuttingDown == (m.kind == SHUTDOWN)
    {
      knownPeers := knownPeers + {m.sender};
      match m.kind {
        case HELLO =>
        case CHAT =>
          AddToHistory(ChatEntry(m.sender, m.payload));
        case HISTORY_REQUEST =>
          if EqualsIgnoreCase(peerId, Trim(m.payload)) {
            var report := HistoryReport();
            outbox := outbox + [Pack(HISTORY_RESPONSE, peerId, now, Some(report))];
          }
        case HISTORY_RESPONSE =>
        case SHUTDOWN =>
          var _ := InitiateShutdown();
      }
    }

    /** One iteration of the console loop on a line typed at `now`: `/get <id>` sends a
        HISTORY_REQUEST naming the target, a chat line is sent and then added to the
        history as `[peerId] line`, `/quit` starts the shutdown. */
    method OnConsoleLine(line: string, now: Int64) returns (step: ConsoleStep)
      requires Valid()
      modifies this`history, this`log, this`shuttingDown, this`outbox
      ensures Valid()
      ensures step == if old(shuttingDown) then ConsoleStopped else Handled(ClassifyLine(line))
      ensures shuttingDown == (old(shuttingDown) || step == Handled(Quit))
      ensures outbox == match step
        case Handled(GetHistory(target)) => old(outbox) + [Pack(HISTORY_REQUEST, peerId, now, Some(target))]
        case Handled(ChatLine(text)) => old(outbox) + [Pack(CHAT, peerId, now, Some(text))]
        case _ => old(outbox)
      ensures log == if step.Handled? && step.cmd.ChatLine? then old(log) + [ChatEntry(peerId, step.cmd.text)] else old(log)
      ensures !(step.Handled? && step.cmd.ChatLine?) ==> history == old(history)
    {
      if shuttingDown {
        return ConsoleStopped;
      }
      var cmd := ClassifyLine(line);
      step := Handled(cmd);
      match cmd {
        case Blank =>
        case Quit =>
          var _ := InitiateShutdown();
        case GetHistory(target) =>
          outbox := outbox + [Pack(HISTORY_REQUEST, peerId, now, Some(target))];
        case ChatLine(text) =>
          outbox := outbox + [Pack(CHAT, peerId, now, Some(text))];
          AddToHistory(ChatEntry(peerId, text));
      }
    }
  }

  // ---------------------------------------------------------------- lemmas

  /** Adding to the newest-`n` window is the same as adding to the whole log and then
      taking the window: the oldest entry is dropped only when the window is full. */
  lemma NewestAppend<T>(s: seq<T>, x: T, n: nat)
    requires n >= 1
    ensures Newest(Newest(s, n) + [x], n) == Newest(s + [x], n)
  {
    if |s| > n {
      var w := s[|s| - n..];
      assert (w + [x])[1..] == s[|s| - n + 1..] + [x];
      assert (s + [x])[|s| + 1 - n..] == s[|s| - n + 1..] + [x];
    }
  }

  /** Two peers that have heard from each other cannot both be the lowest id unless
      they are the same id. */
  lemma AtMostOneLowest(a: string, knownByA: set<string>, b: string, knownByB: set<string>)
    requires b in knownByA && a in knownByB
    requires IsLowest(a, knownByA) && IsLowest(b, knownByB)
    ensures a == b
  {
    LexLeAntisymmetric(a, b);
  }

  /** `/get <id>`, with the command word in any letter case, asks for the history of
      exactly the named peer. */
  lemma GetCommand(command: string, target: string)
    requires ToLower(command) == "/get "
    requires target != [] && Trim(target) == target
    ensures ClassifyLine(command + target) == GetHistory(target)
  {
    var l := command + target;
    GetCommandShape(command, target);
    CommandLineTrimmed(command, target);
    ClassifyGet(l, target);
  }

  lemma ClassifyGet(l: string, target: string)
    requires |l| >= 5 && Trim(l[5..]) == target
    requires Trim(l) == l && l != [] && !EqualsIgnoreCase(l, "/quit")
    requires StartsWith(ToLower(l), "/get ")
    ensures ClassifyLine(l) == GetHistory(target)
  {
  }


  lemma GetCommandShape(command: string, target: string)
    requires ToLower(command) == "/get " && target != []
    ensures |command + target| >= 5 && (command + target)[5..] == target
    ensures StartsWith(ToLower(command + target), "/get ")
    ensures !EqualsIgnoreCase(command + target, "/quit")
  {
    assert |command| == |ToLower(command)| == 5;
    ToLowerAppend(command, target);
    PrefixStartsWith("/get ", ToLower(target));
    assert |ToLower(command + target)| != |ToLower("/quit")|;
  }

  lemma PrefixStartsWith(p: string, t: string)
    ensures StartsWith(p + t, p)
  {
    assert (p + t)[..|p|] == p;
  }

  lemma CommandLineTrimmed(command: string, target: string)
    requires ToLower(command) == "/get "
    requires target != [] && Trim(target) == target
    ensures Trim(command + target) == command + target
  {
    var l := command + target;
    assert ToLower(command)[0] == ToLowerChar(command[0]) == '/';
    assert l[0] == command[0];
    TrimEnds(target);
    assert l[|l| - 1] == target[|target| - 1];
    TrimUnchanged(l);
  }

  /** A line that is not blank and does not start with `/` is chat, sent as typed once
      trimmed. */
  lemma ChatLineCommand(line: string)
    requires Trim(line) != [] && Trim(line)[0] != '/'
    ensures ClassifyLine(line) == ChatLine(Trim(line))
  {
    var l := Trim(line);
    assert ToLower(l)[0] == ToLowerChar(l[0]);
    assert ToLower("/quit")[0] == '/';
  }
}
