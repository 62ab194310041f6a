/**
 * One heartbeat node: the state its threads share (the running flag, the
 * last-heartbeat map, the peer directory) and one method per step of each thread
 * (multicast receive, unicast receive, heartbeat send, failure scan, console
 * command) plus `shutdown`. Sending a datagram is appending it to `sent`; the clock
 * and the local ip are parameters.
 */
module HeartbeatNode {
  import opened JavaText
  import opened NodeDirectory
  import opened HeartbeatWire

  /** A datagram handed to a socket: to the discovery group, or to one peer. */
  datatype Datagram = ToGroup(payload: string) | ToPeer(ip: string, port: Int32, payload: string)

  /** One step of a receive loop: the loop had already ended (shut down, or its thread
      died on an earlier exception), or what the packet decoded to. */
  datatype Receipt<T> = LoopEnded | Handled(decoded: Decoded<T>)

  /** How the console reads a line, once trimmed. */
  datatype Command = ExitCommand | ListCommand | MsgCommandLine(msg: MsgCommand) | OtherLine

  function ClassifyLine(line: string): Command
  {
    var l := Trim(line);
    if l == "exit" then ExitCommand
    else if l == "list" then ListCommand
    else if StartsWith(l, "msg ") then MsgCommandLine(ParseMsgCommand(l))
    else OtherLine
  }

  /** What one console step did. */
  datatype ConsoleOutcome =
    | ConsoleEnded
    | Exited
    | Listed(header: string, order: seq<Int32>, lines: seq<string>)
    | Usage
    | BadDestId
    | NotFound(destId: Int32)
    | Sent(to: Contact, payload: string)
    | BadPort(to: Contact)
    | NoCommand

  /** The ports a `DatagramPacket` accepts; any other port makes its constructor throw
      IllegalArgumentException. */
  predicate IsPort(port: int) { 0 <= port <= 0xFFFF }

  /** The first line `list` prints. */
  function ListHeader(myId: Int32, unicastPort: Int32): string
  {
    "Current node: " + IntToString(myId) + " unicastPort=" + IntToString(unicastPort)
  }

  class Node {
    const myId: Int32
    const unicastPort: Int32
    const directory: Directory
    var running: bool
    var lastHeartbeat: map<Int32, Int64>
    var sent: seq<Datagram>
    var multicastReceiverAlive: bool
    var unicastReceiverAlive: bool
    var consoleAlive: bool

    /** The node's own id is always tracked, and every id in the directory has a
        last-heartbeat entry (both maps are written together and never shrink), so the
        failure detector watches every peer the console can message. This is an
        invariant the node's steps preserve; none of them needs it to do its work. */
    ghost predicate Valid()
      reads this, directory
    {
      && myId in lastHeartbeat
      && directory.contacts.Keys <= lastHeartbeat.Keys
    }

    /** Seeds the last-heartbeat map with the node itself at start-up time. */
    constructor (myId: Int32, unicastPort: Int32, now: Int64)
      ensures Valid() && fresh(directory)
      ensures this.myId == myId && this.unicastPort == unicastPort
      ensures running && multicastReceiverAlive && unicastReceiverAlive && consoleAlive
      ensures lastHeartbeat == map[myId := now] && directory.contacts == map[] && sent == []
    {
      this.myId := myId;
      this.unicastPort := unicastPort;
      directory := new Directory();
      running := true;
      lastHeartbeat := map[myId := now];
      sent := [];
      multicastReceiverAlive, unicastReceiverAlive, consoleAlive := true, true, true;
    }

    /** One iteration of the multicast receive loop on a packet received at `now`.
        An accepted heartbeat records the receive time (not the embedded timestamp)
        and the announced contact for its id, leaving every other entry alone; any
        other packet changes neither map; a NumberFormatException ends the loop. */
    method OnMulticastPacket(packet: string, now: Int64) returns (r: Receipt<Heartbeat>)
      requires Valid()
      modifies this`lastHeartbeat, this`multicastReceiverAlive, directory
      ensures Valid()
      ensures r == if old(running && multicastReceiverAlive) then Handled(DecodeHeartbeat(Trim(packet))) else LoopEnded
      ensures r.Handled? && r.decoded.Accepted? ==>
        && lastHeartbeat == old(lastHeartbeat)[r.decoded.value.id := now]
        && directory.contacts == old(directory.contacts)[r.decoded.value.id := Contact(r.decoded.value.ip, r.decoded.value.port)]
      ensures !(r.Handled? && r.decoded.Accepted?) ==>
        lastHeartbeat == old(lastHeartbeat) && directory.contacts == old(directory.contacts)
      ensures multicastReceiverAlive == (old(multicastReceiverAlive) && r != Handled(NumberFormatError))
    {
      if !running || !multicastReceiverAlive {
        return LoopEnded;
      }
      var d := DecodeHeartbeat(Trim(packet));
      r := Handled(d);
      match d {
        case Accepted(hb) =>
          lastHeartbeat := lastHeartbeat[hb.id := now];
          directory.Put(hb.id, hb.ip, hb.port);
        case NumberFormatError =>
          multicastReceiverAlive := false;
        case Dropped =>
      }
    }

    /** One iteration of the unicast receive loop: the decoded message is surfaced
        only when addressed to this node; a NumberFormatException ends the loop. */
    method OnUnicastPacket(packet: string) returns (r: Receipt<DirectMessage>)
      modifies this`unicastReceiverAlive
      ensures r == if old(running && unicastReceiverAlive) then Handled(DecodeUnicast(Trim(packet), myId)) else LoopEnded
      ensures unicastReceiverAlive == (old(unicastReceiverAlive) && r != Handled(NumberFormatError))
    {
      if !running || !unicastReceiverAlive {
        return LoopEnded;
      }
      var d := DecodeUnicast(Trim(packet), myId);
      r := Handled(d);
      if d.NumberFormatError? {
        unicastReceiverAlive := false;
      }
    }

    /** One iteration of the heartbeat sender: while running, broadcast this node's
        id, the current time, its ip and its unicast port. */
    method HeartbeatTick(now: Int64, ip: string)
      modifies this`sent
      ensures sent == if running then old(sent) + [ToGroup(HeartbeatPayload(myId, now, ip, unicastPort))] else old(sent)
    {
      if running {
        sent := sent + [ToGroup(HeartbeatPayload(myId, now, ip, unicastPort))];
      }
    }

    /** One failure-detector scan at `now`: while running, it alerts exactly the
        peers `Suspects` names, each with its silence in milliseconds; it only reads
        the last-heartbeat map. */
    method ScanForFailures(now: Int64) returns (alerts: map<Int32, int>)
      ensures alerts == if running then Suspects(lastHeartbeat, myId, now) else map[]
    {
      alerts := map[];
      if !running {
        return;
      }
      var rest := lastHeartbeat.Keys;
      while rest != {}
        invariant rest <= lastHeartbeat.Keys
        invariant forall id :: id in alerts <==> id in lastHeartbeat && id !in rest && id != myId && now - lastHeartbeat[id] > FAILURE_TIMEOUT_MS
        invariant forall id :: id in alerts ==> alerts[id] == now - lastHeartbeat[id]
        decreases rest
      {
        var id :| id in rest;
        if id != myId {
          var diff := now - lastHeartbeat[id];
          if diff > FAILURE_TIMEOUT_MS {
            alerts := alerts[id := diff];
          }
        }
        rest := rest - {id};
      }
    }

    /** `dumpNodes`: a header line, then the directory's listing. */
    method DumpNodes() returns (header: string, order: seq<Int32>, lines: seq<string>)
      ensures header == ListHeader(myId, unicastPort)
      ensures IsListing(directory.contacts, order, lines)
    {
      header := ListHeader(myId, unicastPort);
      order, lines := directory.Dump();
    }

    /** `shutdown`: only the first call acts; every later call returns at once. */
    method Shutdown() returns (acted: bool)
      modifies this`running
      ensures acted == old(running)
      ensures !running
    {
      acted := running;
      running := false;
    }

    /** One iteration of the console loop on a line typed by the operator. */
    method OnConsoleLine(line: string) returns (r: ConsoleOutcome)
      requires Valid()
      modifies this`running, this`consoleAlive, this`sent
      ensures Valid()
      ensures !old(running && consoleAlive) ==>
        r == ConsoleEnded && running == old(running) && consoleAlive == old(consoleAlive) && sent == old(sent)
      ensures old(running && consoleAlive) ==> match ClassifyLine(line)
        case ExitCommand => r == Exited && !running && !consoleAlive && sent == old(sent)
        case ListCommand =>
          && r.Listed? && r.header == ListHeader(myId, unicastPort)
          && IsListing(directory.contacts, r.order, r.lines)
          && running && consoleAlive && sent == old(sent)
        case MsgCommandLine(MsgUsage) => r == Usage && running && consoleAlive && sent == old(sent)
        case MsgCommandLine(MsgBadId) => r == BadDestId && running && !consoleAlive && sent == old(sent)
        case MsgCommandLine(MsgTo(destId, text)) =>
          && running
          && (destId !in directory.contacts ==> r == NotFound(destId) && consoleAlive && sent == old(sent))
          && (destId in directory.contacts && !IsPort(directory.contacts[destId].port) ==>
                r == BadPort(directory.contacts[destId]) && !consoleAlive && sent == old(sent))
          && (destId in directory.contacts && IsPort(directory.contacts[destId].port) ==>
                var c := directory.contacts[destId];
                && r == Sent(c, MsgPayload(myId, destId, text))
                && consoleAlive
                && sent == old(sent) + [ToPeer(c.ip, c.port, MsgPayload(myId, destId, text))])
        case OtherLine => r == NoCommand && running && consoleAlive && sent == old(sent)
    {
      if !running || !consoleAlive {
        return ConsoleEnded;
      }
      match ClassifyLine(line) {
        case ExitCommand =>
          var _ := Shutdown();
          consoleAlive := false;
          r := Exited;
        case ListCommand =>
          var header, order, lines := DumpNodes();
          r := Listed(header, order, lines);
        case MsgCommandLine(MsgUsage) =>
          r := Usage;
        case MsgCommandLine(MsgBadId) =>
          consoleAlive := false;
          r := BadDestId;
        case MsgCommandLine(MsgTo(destId, text)) =>
          var contact := directory.Get(destId);
          match contact {
            case None =>
              r := NotFound(destId);
            case Some(c) =>
              if !IsPort(c.port) {
                // the packet constructor's IllegalArgumentException is not an
                // IOException, so nothing catches it and the console thread dies
                consoleAlive := false;
                r := BadPort(c);
              } else {
                var payload := MsgPayload(myId, destId, text);
                sent := sent + [ToPeer(c.ip, c.port, payload)];
                r := Sent(c, payload);
              }
          }
        case OtherLine =>
          r := NoCommand;
      }
    }
  }
}
