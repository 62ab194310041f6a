/**
 * The multicast chat's wire format: `type|sender|timestamp|payload`, its decoder,
 * the text of a chat-history entry and the payload of a history reply.
 */
module ChatWire {
  import opened JavaText

  /** The five message types, written on the wire by their names. */
  datatype MsgType = HELLO | CHAT | HISTORY_REQUEST | HISTORY_RESPONSE | SHUTDOWN

  /** A decoded datagram. */
  datatype Msg = Msg(kind: MsgType, sender: string, ts: Int64, payload: string)

  /** The enum constant's name, which is what string concatenation writes. */
  function TypeName(t: MsgType): string
  {
    match t
    case HELLO => "HELLO"
    case CHAT => "CHAT"
    case HISTORY_REQUEST => "HISTORY_REQUEST"
    case HISTORY_RESPONSE => "HISTORY_RESPONSE"
    case SHUTDOWN => "SHUTDOWN"
  }

  /** `Type.valueOf`: exactly the constant names, case-sensitive; anything else throws
      IllegalArgumentException, which is `None` here. */
  function TypeOf(name: string): (r: Option<MsgType>)
    ensures r.Some? ==> TypeName(r.value) == name
  {
    if name == "HELLO" then Some(HELLO)
    else if name == "CHAT" then Some(CHAT)
    else if name == "HISTORY_REQUEST" then Some(HISTORY_REQUEST)
    else if name == "HISTORY_RESPONSE" then Some(HISTORY_RESPONSE)
    else if name == "SHUTDOWN" then Some(SHUTDOWN)
    else None
  }

  lemma TypeNameParses(t: MsgType)
    ensures TypeOf(TypeName(t)) == Some(t)
    ensures '|' !in TypeName(t)
  {
  }

  /** `pack`: the datagram text for a message sent by `sender` at `now`; a `null`
      payload is written as the empty string. */
  function Pack(kind: MsgType, sender: string, now: Int64, payload: Option<string>): string
  {
    TypeName(kind) + "|" + sender + "|" + IntToString(now) + "|" + (if payload.Some? then payload.value else "")
  }

  /** `unpack`: a limit-4 split on `|`; fewer than four pieces, an unknown type name
      or a timestamp that is not a `long` all give `null` (`None`). */
  function Unpack(s: string): Option<Msg>
  {
    var parts := SplitN(s, '|', 4);
    if |parts| < 4 then None
    else
      match (TypeOf(parts[0]), ParseLong(parts[2]))
      case (Some(kind), Some(ts)) => Some(Msg(kind, parts[1], ts, parts[3]))
      case _ => None
  }

  /** The history entry for a chat line: `[sender] text`. */
  function ChatEntry(sender: string, text: string): string
  {
    "[" + sender + "] " + text
  }

  /** Every entry, each preceded by a newline. */
  function Lines(h: seq<string>): string
  {
    if h == [] then "" else "\n" + h[0] + Lines(h[1..])
  }

  /** The payload of a HISTORY_RESPONSE: a header line, then the entries oldest first. */
  function HistoryReply(peerId: string, h: seq<string>): string
  {
    "HISTORY for " + peerId + Lines(h)
  }

  // ---------------------------------------------------------------- lemmas: codec

  /** Round trip: for a sender id without `|`, unpacking a packed message gives back its
      type, sender, timestamp and payload (`""` for a null payload); `|` characters
      inside the payload survive. */
  lemma PackUnpack(kind: MsgType, sender: string, now: Int64, payload: Option<string>)
    requires '|' !in sender
    ensures Unpack(Pack(kind, sender, now, payload))
         == Some(Msg(kind, sender, now, if payload.Some? then payload.value else ""))
  {
    PackFields(kind, sender, now, payload);
    TypeNameParses(kind);
    ParseLongOfString(now);
  }

  lemma PackFields(kind: MsgType, sender: string, now: Int64, payload: Option<string>)
    requires '|' !in sender
    ensures SplitN(Pack(kind, sender, now, payload), '|', 4)
         == [TypeName(kind), sender, IntToString(now), if payload.Some? then payload.value else ""]
  {
    var text := if payload.Some? then payload.value else "";
    TypeNameParses(kind);
    assert '|' !in IntToString(now) by {
      var n := IntToString(now);
      assert forall k :: 0 <= k < |n| ==> n[k] != '|';
    }
    assert Pack(kind, sender, now, payload)
        == TypeName(kind) + ['|'] + sender + ['|'] + IntToString(now) + ['|'] + text;
    SplitNThreeFields(TypeName(kind), sender, IntToString(now), text, '|');
  }

  /** A datagram with fewer than three `|` has fewer than four fields and is dropped. */
  lemma UnpackNeedsFourFields(s: string)
    requires Count(s, '|') < 3
    ensures Unpack(s) == None
  {
    SplitNLength(s, '|', 4);
  }

  /** A first field that is not exactly a type name drops the datagram. */
  lemma UnpackUnknownType(name: string, rest: string)
    requires '|' !in name && TypeOf(name).None?
    ensures Unpack(name + "|" + rest) == None
  {
    SplitNCons(name, '|', rest, 4);
  }

  /** A third field that is not a `long` drops the datagram, whatever the type. */
  lemma UnpackBadTimestamp(kind: MsgType, sender: string, tsText: string, payload: string)
    requires '|' !in sender && '|' !in tsText && ParseLong(tsText).None?
    ensures Unpack(TypeName(kind) + "|" + sender + "|" + tsText + "|" + payload) == None
  {
    TypeNameParses(kind);
    SplitNThreeFields(TypeName(kind), sender, tsText, payload, '|');
  }

  /** Converse of the round trip: a decoded datagram is exactly the type's name, the
      sender, a timestamp text that parses to the timestamp and the payload, joined by `|`;
      its sender has no `|`, so it can be packed again. */
  lemma UnpackShape(s: string)
    requires Unpack(s).Some?
    ensures '|' !in Unpack(s).value.sender
    ensures var m := Unpack(s).value;
      exists tsText :: s == TypeName(m.kind) + "|" + m.sender + "|" + tsText + "|" + m.payload
                    && ParseLong(tsText) == Some(m.ts)
  {
    var parts := SplitN(s, '|', 4);
    SplitNLeadingFree(s, '|', 4);
    SplitNJoin(s, '|', 4);
    JoinFourFields(parts, '|');
  }

  // ---------------------------------------------------------------- lemmas: history reply

  lemma {:induction false} LinesSnoc(h: seq<string>, x: string)
    ensures Lines(h + [x]) == Lines(h) + "\n" + x
    decreases |h|
  {
    if h != [] {
      assert (h + [x])[1..] == h[1..] + [x];
      LinesSnoc(h[1..], x);
    }
  }

  /** A head line followed by the entries splits back, on newlines, into the head and
      the entries, when none of them holds a newline. */
  lemma {:induction false} SplitLines(head: string, h: seq<string>)
    requires '\n' !in head
    requires forall k :: 0 <= k < |h| ==> '\n' !in h[k]
    ensures SplitAll(head + Lines(h), '\n') == [head] + h
    decreases |h|
  {
    if h == [] {
      assert head + Lines(h) == head;
      assert IndexOf(head, '\n') == |head|;
    } else {
      var tail := h[1..];
      assert forall k :: 0 <= k < |tail| ==> '\n' !in tail[k] by {
        forall k | 0 <= k < |tail| ensures '\n' !in tail[k] {
          assert tail[k] == h[k + 1];
        }
      }
      assert '\n' !in h[0];
      SplitLines(h[0], tail);
      SplitLinesStep(head, h);
    }
  }

  lemma SplitLinesStep(head: string, h: seq<string>)
    requires '\n' !in head && h != []
    requires SplitAll(h[0] + Lines(h[1..]), '\n') == [h[0]] + h[1..]
    ensures SplitAll(head + Lines(h), '\n') == [head] + h
  {
    LinesCons(head, h);
    SplitAllCons(head, '\n', h[0] + Lines(h[1..]));
    assert [h[0]] + h[1..] == h;
  }

  lemma LinesCons(head: string, h: seq<string>)
    requires h != []
    ensures head + Lines(h) == head + ['\n'] + (h[0] + Lines(h[1..]))
  {
    var rest := h[0] + Lines(h[1..]);
    assert Lines(h) == ['\n'] + rest;
  }

  /** The history reply reads, line by line, as the header `HISTORY for <peerId>` and
      then every entry, oldest first. */
  lemma HistoryReplyLines(peerId: string, h: seq<string>)
    requires '\n' !in peerId
    requires forall k :: 0 <= k < |h| ==> '\n' !in h[k]
    ensures SplitAll(HistoryReply(peerId, h), '\n') == ["HISTORY for " + peerId] + h
  {
    SplitLines("HISTORY for " + peerId, h);
    assert HistoryReply(peerId, h) == ("HISTORY for " + peerId) + Lines(h);
  }
}
