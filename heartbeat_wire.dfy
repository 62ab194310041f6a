/**
 * The heartbeat node's wire formats and its liveness rule, as pure functions:
 *   HEARTBEAT;<id>;<timestampMs>;<ip>;<port>   broadcast to the discovery group
 *   MSG;<fromId>;<toId>;<text>                 sent to one peer's unicast port
 * and the set of peers one failure-detector scan reports.
 */
module HeartbeatWire {
  import opened JavaText

  /** A peer silent for longer than this many milliseconds is reported dead. */
  const FAILURE_TIMEOUT_MS := 3000

  /** What a receiver makes of one packet: ignored (wrong shape, wrong kind, not
      addressed here), a NumberFormatException from `Integer.parseInt`, or a value. */
  datatype Decoded<T> = Dropped | NumberFormatError | Accepted(value: T)

  datatype Heartbeat = Heartbeat(id: Int32, ip: string, port: Int32)

  datatype DirectMessage = DirectMessage(fromId: Int32, text: string)

  // ---------------------------------------------------------------- heartbeat

  /** The text the heartbeat sender broadcasts. */
  function HeartbeatPayload(id: Int32, now: Int64, ip: string, port: Int32): string
  {
    "HEARTBEAT;" + IntToString(id) + ";" + IntToString(now) + ";" + ip + ";" + IntToString(port)
  }

  /** The multicast handler's decision on a (trimmed) packet: split on `;` with
      trailing empty fields removed; at least five fields, the first exactly
      `HEARTBEAT`; the id (field 1) and the port (field 4) must parse as `int`,
      the timestamp (field 2) is never looked at, extra fields are ignored. */
  function DecodeHeartbeat(data: string): Decoded<Heartbeat>
  {
    var parts := Split(data, ';');
    if |parts| >= 5 && parts[0] == "HEARTBEAT" then
      match (ParseInt(parts[1]), ParseInt(parts[4]))
      case (Some(id), Some(port)) => Accepted(Heartbeat(id, parts[3], port))
      case _ => NumberFormatError
    else
      Dropped
  }

  // ---------------------------------------------------------------- direct message

  /** The text the console's `msg` command sends to the destination peer. */
  function MsgPayload(fromId: Int32, toId: Int32, text: string): string
  {
    "MSG;" + IntToString(fromId) + ";" + IntToString(toId) + ";" + text
  }

  /** The unicast handler's decision on a (trimmed) packet: split on `;` into at most
      four fields, so the text keeps its own `;`; the first must be `MSG`; `toId` is
      parsed first and a packet for another peer is dropped before `fromId` is read. */
  function DecodeUnicast(data: string, myId: Int32): Decoded<DirectMessage>
  {
    var parts := SplitN(data, ';', 4);
    if |parts| >= 4 && parts[0] == "MSG" then
      match ParseInt(parts[2])
      case None => NumberFormatError
      case Some(toId) =>
        if toId != myId then Dropped
        else
          match ParseInt(parts[1])
          case None => NumberFormatError
          case Some(fromId) => Accepted(DirectMessage(fromId, parts[3]))
    else
      Dropped
  }

  // ---------------------------------------------------------------- console `msg` command

  datatype MsgCommand = MsgUsage | MsgBadId | MsgTo(destId: Int32, text: string)

  /** The console's reading of a trimmed line that starts with `msg `: split on runs
      of whitespace into at most three tokens; fewer than three is a usage error; the
      id token goes through `Integer.parseInt` (which may throw); the third token is
      the text, inner whitespace kept. */
  function ParseMsgCommand(line: string): MsgCommand
  {
    var parts := SplitSpacesN(line, 3);
    if |parts| < 3 then MsgUsage
    else
      match ParseInt(parts[1])
      case None => MsgBadId
      case Some(destId) => MsgTo(destId, parts[2])
  }

  // ---------------------------------------------------------------- failure detector

  /** One failure-detector scan at time `now`: every tracked id other than our own
      whose last heartbeat is strictly more than the timeout old, with its silence. */
  function Suspects(lastSeen: map<Int32, Int64>, myId: Int32, now: Int64): map<Int32, int>
  {
    map id | id in lastSeen && id != myId && now - lastSeen[id] > FAILURE_TIMEOUT_MS :: now - lastSeen[id]
  }

  // ---------------------------------------------------------------- lemmas: splitting the formats

  lemma NoDelimiterInNumber(n: int, c: char)
    requires !IsDigit(c) && c != '-'
    ensures c !in IntToString(n)
  {
    var s := IntToString(n);
    assert forall k :: 0 <= k < |s| ==> s[k] != c;
  }

  lemma FourFieldsShape(f0: string, f1: string, f2: string, f3: string, rest: string)
    ensures f0 + ";" + f1 + ";" + f2 + ";" + f3 + ";" + rest
         == f0 + [';'] + (f1 + [';'] + (f2 + [';'] + (f3 + [';'] + rest)))
  {
  }

  /** Four leading `;`-free fields are split off exactly, whatever follows them. */
  lemma SplitFourFields(f0: string, f1: string, f2: string, f3: string, rest: string)
    requires ';' !in f0 && ';' !in f1 && ';' !in f2 && ';' !in f3
    ensures SplitAll(f0 + ";" + f1 + ";" + f2 + ";" + f3 + ";" + rest, ';') == [f0, f1, f2, f3] + SplitAll(rest, ';')
  {
    var t3 := f3 + [';'] + rest;
    var t2 := f2 + [';'] + t3;
    var t1 := f1 + [';'] + t2;
    var t0 := f0 + [';'] + t1;
    FourFieldsShape(f0, f1, f2, f3, rest);
    SplitAllCons(f3, ';', rest);
    SplitAllCons(f2, ';', t3);
    SplitAllCons(f1, ';', t2);
    SplitAllCons(f0, ';', t1);
    ConsFour(f0, f1, f2, f3, SplitAll(rest, ';'));
  }

  lemma ConsFour<T>(x0: T, x1: T, x2: T, x3: T, r: seq<T>)
    ensures [x0] + ([x1] + ([x2] + ([x3] + r))) == [x0, x1, x2, x3] + r
  {
  }

  lemma ConsFive<T>(x0: T, x1: T, x2: T, x3: T, x4: T, r: seq<T>)
    ensures [x0, x1, x2, x3] + ([x4] + r) == [x0, x1, x2, x3, x4] + r
  {
  }

  // ---------------------------------------------------------------- lemmas: heartbeat

  /** Any five `;`-free fields whose last one is not empty are read back as exactly
      those five fields. */
  lemma HeartbeatFields(f0: string, f1: string, f2: string, f3: string, f4: string)
    requires ';' !in f0 && ';' !in f1 && ';' !in f2 && ';' !in f3 && ';' !in f4 && f4 != []
    ensures Split(f0 + ";" + f1 + ";" + f2 + ";" + f3 + ";" + f4, ';') == [f0, f1, f2, f3, f4]
  {
    var s := f0 + ";" + f1 + ";" + f2 + ";" + f3 + ";" + f4;
    SplitFourFields(f0, f1, f2, f3, f4);
    assert SplitAll(f4, ';') == [f4] by {
      assert IndexOf(f4, ';') == |f4|;
    }
    assert s[|f0|] == ';';
  }

  /** A packet in the heartbeat layout splits into the kind and its four fields. */
  lemma HeartbeatSplit(id: string, ts: string, ip: string, port: string)
    requires ';' !in id && ';' !in ts && ';' !in ip && ';' !in port && port != []
    ensures Split("HEARTBEAT;" + id + ";" + ts + ";" + ip + ";" + port, ';') == ["HEARTBEAT", id, ts, ip, port]
  {
    assert "HEARTBEAT;" == "HEARTBEAT" + ";";
    assert ';' !in "HEARTBEAT";
    HeartbeatFields("HEARTBEAT", id, ts, ip, port);
  }

  /** The receiver takes the id and port of a heartbeat from its fields and never
      validates the timestamp field: any `;`-free text there is accepted. */
  lemma HeartbeatIgnoresTimestamp(id: Int32, ts: string, ip: string, port: Int32)
    requires ';' !in ts && ';' !in ip
    ensures DecodeHeartbeat("HEARTBEAT;" + IntToString(id) + ";" + ts + ";" + ip + ";" + IntToString(port))
         == Accepted(Heartbeat(id, ip, port))
  {
    NoDelimiterInNumber(id, ';');
    NoDelimiterInNumber(port, ';');
    HeartbeatSplit(IntToString(id), ts, ip, IntToString(port));
    ParseIntOfString(id);
    ParseIntOfString(port);
  }

  /** Round trip: what the heartbeat sender broadcasts, once trimmed by the receive
      loop, decodes to the sender's id, ip and unicast port (for an ip without `;`). */
  lemma HeartbeatRoundTrip(id: Int32, now: Int64, ip: string, port: Int32)
    requires ';' !in ip
    ensures DecodeHeartbeat(Trim(HeartbeatPayload(id, now, ip, port))) == Accepted(Heartbeat(id, ip, port))
  {
    var p := HeartbeatPayload(id, now, ip, port);
    var portText := IntToString(port);
    assert p[|p| - 1] == portText[|portText| - 1];
    TrimUnchanged(p);
    NoDelimiterInNumber(now, ';');
    HeartbeatIgnoresTimestamp(id, IntToString(now), ip, port);
  }

  lemma {:induction false} StripKeepsPrefix(front: seq<string>, back: seq<string>)
    requires front != [] && front[|front| - 1] != []
    ensures |StripTrailingEmpty(front + back)| >= |front|
    ensures StripTrailingEmpty(front + back)[..|front|] == front
    decreases |back|
  {
    var all := front + back;
    if back != [] && back[|back| - 1] == [] {
      assert all[..|all| - 1] == front + back[..|back| - 1];
      StripKeepsPrefix(front, back[..|back| - 1]);
    } else if back == [] {
      assert all == front;
    } else {
      assert all[..|front|] == front;
    }
  }

  /** Fields after the fifth do not change what a heartbeat decodes to. */
  lemma HeartbeatExtraFieldsIgnored(f0: string, f1: string, f2: string, f3: string, f4: string, extra: string)
    requires ';' !in f0 && ';' !in f1 && ';' !in f2 && ';' !in f3 && ';' !in f4 && f4 != []
    ensures DecodeHeartbeat(f0 + ";" + f1 + ";" + f2 + ";" + f3 + ";" + f4 + ";" + extra)
         == DecodeHeartbeat(f0 + ";" + f1 + ";" + f2 + ";" + f3 + ";" + f4)
  {
    HeartbeatFields(f0, f1, f2, f3, f4);
    ExtendedSplitPrefix(f0, f1, f2, f3, f4, extra);
    DecodeByFirstFive(f0 + ";" + f1 + ";" + f2 + ";" + f3 + ";" + f4 + ";" + extra,
                      f0 + ";" + f1 + ";" + f2 + ";" + f3 + ";" + f4);
  }

  /** With more fields after the fifth, the split still starts with the five fields. */
  lemma ExtendedSplitPrefix(f0: string, f1: string, f2: string, f3: string, f4: string, extra: string)
    requires ';' !in f0 && ';' !in f1 && ';' !in f2 && ';' !in f3 && ';' !in f4 && f4 != []
    ensures |Split(f0 + ";" + f1 + ";" + f2 + ";" + f3 + ";" + f4 + ";" + extra, ';')| >= 5
    ensures Split(f0 + ";" + f1 + ";" + f2 + ";" + f3 + ";" + f4 + ";" + extra, ';')[..5] == [f0, f1, f2, f3, f4]
  {
    var longer := f0 + ";" + f1 + ";" + f2 + ";" + f3 + ";" + f4 + ";" + extra;
    ExtendedSplitAll(f0, f1, f2, f3, f4, extra);
    assert longer[|f0|] == ';';
    StripKeepsPrefix([f0, f1, f2, f3, f4], SplitAll(extra, ';'));
  }

  lemma ExtendedSplitAll(f0: string, f1: string, f2: string, f3: string, f4: string, extra: string)
    requires ';' !in f0 && ';' !in f1 && ';' !in f2 && ';' !in f3 && ';' !in f4
    ensures SplitAll(f0 + ";" + f1 + ";" + f2 + ";" + f3 + ";" + f4 + ";" + extra, ';')
         == [f0, f1, f2, f3, f4] + SplitAll(extra, ';')
  {
    var tail := f4 + ";" + extra;
    assert f0 + ";" + f1 + ";" + f2 + ";" + f3 + ";" + f4 + ";" + extra
        == f0 + ";" + f1 + ";" + f2 + ";" + f3 + ";" + tail;
    SplitFourFields(f0, f1, f2, f3, tail);
    SplitAllCons(f4, ';', extra);
    ConsFive(f0, f1, f2, f3, f4, SplitAll(extra, ';'));
  }

  /** The decision depends only on the first five fields. */
  lemma DecodeByFirstFive(a: string, b: string)
    requires |Split(a, ';')| >= 5 && |Split(b, ';')| >= 5
    requires Split(a, ';')[..5] == Split(b, ';')[..5]
    ensures DecodeHeartbeat(a) == DecodeHeartbeat(b)
  {
    var pa, pb := Split(a, ';'), Split(b, ';');
    assert pa[0] == pa[..5][0] && pa[1] == pa[..5][1] && pa[3] == pa[..5][3] && pa[4] == pa[..5][4];
    assert pb[0] == pb[..5][0] && pb[1] == pb[..5][1] && pb[3] == pb[..5][3] && pb[4] == pb[..5][4];
  }

  /** Rejection: a packet the handler acts on (rightly or with an exception) starts
      with `HEARTBEAT;` and holds at least four `;`; anything else leaves all state alone. */
  lemma HeartbeatNeedsPrefixAndFields(data: string)
    requires DecodeHeartbeat(data) != Dropped
    ensures StartsWith(data, "HEARTBEAT;")
    ensures Count(data, ';') >= 4
  {
    var parts := Split(data, ';');
    assert ';' in data;
    var all := SplitAll(data, ';');
    assert parts == all[..|parts|];
    SplitAllLength(data, ';');
    assert all[0] == parts[0] == "HEARTBEAT";
    FirstFieldPrefix(data, ';', "HEARTBEAT");
  }

  /** An id or port field that is not a Java `int` makes `Integer.parseInt` throw, even
      when everything else about the heartbeat is right. */
  lemma HeartbeatBadNumber(id: string, ts: string, ip: string, port: string)
    requires ';' !in id && ';' !in ts && ';' !in ip && ';' !in port && port != []
    requires ParseInt(id).None? || ParseInt(port).None?
    ensures DecodeHeartbeat("HEARTBEAT;" + id + ";" + ts + ";" + ip + ";" + port) == NumberFormatError
  {
    HeartbeatSplit(id, ts, ip, port);
  }

  /** The empty packet is one empty field, and is ignored. */
  lemma EmptyPacketExample()
    ensures DecodeHeartbeat("") == Dropped
  {
    assert Split("", ';') == [""];
  }

  // ---------------------------------------------------------------- lemmas: direct message

  /** Round trip: the payload built by `msg` is surfaced by the destination with the
      sender's id and the text unchanged, `;` characters in the text included. */
  lemma UnicastRoundTrip(fromId: Int32, toId: Int32, text: string)
    ensures DecodeUnicast(MsgPayload(fromId, toId, text), toId) == Accepted(DirectMessage(fromId, text))
  {
    NoDelimiterInNumber(fromId, ';');
    NoDelimiterInNumber(toId, ';');
    assert MsgPayload(fromId, toId, text) == "MSG" + ";" + IntToString(fromId) + ";" + IntToString(toId) + ";" + text;
    SplitNThreeFields("MSG", IntToString(fromId), IntToString(toId), text, ';');
    ParseIntOfString(fromId);
    ParseIntOfString(toId);
  }

  /** A message for another peer is dropped before its sender field is parsed, so a
      malformed sender there raises nothing. */
  lemma UnicastForOtherPeer(fromField: string, toId: Int32, text: string, myId: Int32)
    requires ';' !in fromField && toId != myId
    ensures DecodeUnicast("MSG;" + fromField + ";" + IntToString(toId) + ";" + text, myId) == Dropped
  {
    NoDelimiterInNumber(toId, ';');
    assert "MSG;" + fromField == "MSG" + ";" + fromField;
    SplitNThreeFields("MSG", fromField, IntToString(toId), text, ';');
    ParseIntOfString(toId);
  }

  /** Converse of the round trip: a surfaced message came from a packet of exactly the
      `msg` shape, addressed to this peer, whose last field is the surfaced text. */
  lemma UnicastAcceptedShape(data: string, myId: Int32)
    requires DecodeUnicast(data, myId).Accepted?
    ensures var m := DecodeUnicast(data, myId).value;
      exists fromText, toText ::
        && data == "MSG;" + fromText + ";" + toText + ";" + m.text
        && ParseInt(fromText) == Some(m.fromId)
        && ParseInt(toText) == Some(myId)
  {
    var parts := SplitN(data, ';', 4);
    var m := DecodeUnicast(data, myId).value;
    SplitNJoin(data, ';', 4);
    assert |parts| == 4 && parts[0] == "MSG" && parts[3] == m.text;
    MsgFieldsJoin(parts);
  }

  lemma MsgFieldsJoin(parts: seq<string>)
    requires |parts| == 4 && parts[0] == "MSG"
    ensures Join(parts, ';') == "MSG;" + parts[1] + ";" + parts[2] + ";" + parts[3]
  {
    JoinFourFields(parts, ';');
  }

  // ---------------------------------------------------------------- lemmas: console and end to end

  lemma NoSpaceInNumber(n: int)
    ensures forall k :: 0 <= k < |IntToString(n)| ==> !IsRegexSpace(IntToString(n)[k])
  {
  }

  lemma {:induction false} FirstSpaceAfter(word: string, rest: string)
    requires forall k :: 0 <= k < |word| ==> !IsRegexSpace(word[k])
    requires rest == [] || IsRegexSpace(rest[0])
    ensures FirstSpace(word + rest) == |word|
    decreases |word|
  {
    if word != [] {
      assert (word + rest)[0] == word[0] && (word + rest)[1..] == word[1..] + rest;
      assert forall k :: 0 <= k < |word[1..]| ==> word[1..][k] == word[k + 1];
      FirstSpaceAfter(word[1..], rest);
    } else {
      assert word + rest == rest;
    }
  }

  lemma SplitSpacesCons(word: string, rest: string, n: nat)
    requires n >= 2
    requires forall k :: 0 <= k < |word| ==> !IsRegexSpace(word[k])
    requires rest == [] || !IsRegexSpace(rest[0])
    ensures SplitSpacesN(word + " " + rest, n) == [word] + SplitSpacesN(rest, n - 1)
  {
    var s := word + " " + rest;
    assert s == word + (" " + rest);
    FirstSpaceAfter(word, " " + rest);
    assert s[..|word|] == word && s[|word|..] == " " + rest;
    assert (" " + rest)[1..] == rest;
    assert SkipSpaces(" " + rest) == rest;
    assert SplitSpacesN(s, n) == [s[..|word|]] + SplitSpacesN(SkipSpaces(s[|word|..]), n - 1);
  }

  /** `msg <id> <text>` names the destination and carries the text verbatim. */
  lemma MsgCommandParses(destId: Int32, text: string)
    requires text != [] && !IsRegexSpace(text[0])
    ensures ParseMsgCommand("msg " + IntToString(destId) + " " + text) == MsgTo(destId, text)
  {
    var idText := IntToString(destId);
    var tail := idText + " " + text;
    assert "msg " + idText + " " + text == "msg" + " " + tail;
    NoSpaceInNumber(destId);
    SplitSpacesCons("msg", tail, 3);
    SplitSpacesCons(idText, text, 2);
    ParseIntOfString(destId);
  }

  /** A `msg` line without a text token is only a usage error: nothing is sent. */
  lemma MsgWithoutTextIsUsage(idToken: string)
    requires idToken != [] && forall k :: 0 <= k < |idToken| ==> !IsRegexSpace(idToken[k])
    ensures ParseMsgCommand("msg " + idToken) == MsgUsage
  {
    assert "msg " + idToken == "msg" + " " + idToken;
    SplitSpacesCons("msg", idToken, 3);
    FirstSpaceAfter(idToken, []);
    assert idToken + [] == idToken;
  }

  /** End to end: the console line `msg <destId> <text>` typed at peer `myId` yields a
      packet that, trimmed by the destination's receive loop, is surfaced there as a
      message from `myId` carrying exactly `text`. */
  lemma MsgEndToEnd(myId: Int32, destId: Int32, text: string)
    requires text != [] && !IsRegexSpace(text[0]) && !IsTrimmed(text[|text| - 1])
    ensures ParseMsgCommand("msg " + IntToString(destId) + " " + text) == MsgTo(destId, text)
    ensures DecodeUnicast(Trim(MsgPayload(myId, destId, text)), destId) == Accepted(DirectMessage(myId, text))
  {
    MsgCommandParses(destId, text);
    var p := MsgPayload(myId, destId, text);
    assert p[|p| - 1] == text[|text| - 1];
    TrimUnchanged(p);
    UnicastRoundTrip(myId, destId, text);
  }

  // ---------------------------------------------------------------- lemmas: failure detector

  /** A heartbeat received at `t` keeps its sender out of every scan up to `t` plus the
      timeout, and leaves every other id's verdict as it was. */
  lemma FreshHeartbeatClearsSuspicion(lastSeen: map<Int32, Int64>, myId: Int32, id: Int32, t: Int64, now: Int64)
    requires now - t <= FAILURE_TIMEOUT_MS
    ensures id !in Suspects(lastSeen[id := t], myId, now)
    ensures forall other :: other != id ==>
      (other in Suspects(lastSeen[id := t], myId, now) <==> other in Suspects(lastSeen, myId, now))
  {
  }

  /** Without new heartbeats a suspected peer stays suspected in every later scan, with
      a silence that only grows. */
  lemma SuspicionPersists(lastSeen: map<Int32, Int64>, myId: Int32, now: Int64, later: Int64)
    requires now <= later
    ensures Suspects(lastSeen, myId, now).Keys <= Suspects(lastSeen, myId, later).Keys
    ensures forall id :: id in Suspects(lastSeen, myId, now) ==>
      Suspects(lastSeen, myId, now)[id] <= Suspects(lastSeen, myId, later)[id]
  {
  }

  /** The local peer is never reported, whatever its own entry says. */
  lemma NeverSuspectSelf(lastSeen: map<Int32, Int64>, myId: Int32, now: Int64)
    ensures myId !in Suspects(lastSeen, myId, now)
  {
  }
}
