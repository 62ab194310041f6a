/**
 * The peer directory of the heartbeat node: a map from peer id to the contact
 * (ip, unicast port) announced in that peer's latest heartbeat. Entries are
 * overwritten, never removed.
 */
module NodeDirectory {
  import opened JavaText

  /** Reachability of one peer for unicast messages. */
  datatype Contact = Contact(ip: string, port: Int32)

  /** The line `dump` prints for one entry: `Node <id> -> <ip>:<port>`. */
  function DumpLine(id: Int32, c: Contact): string
  {
    "Node " + IntToString(id) + " -> " + c.ip + ":" + IntToString(c.port)
  }

  /** `lines` is a listing of `contacts` in the iteration order `order`: every stored
      id exactly once, each with its own line. */
  ghost predicate IsListing(contacts: map<Int32, Contact>, order: seq<Int32>, lines: seq<string>)
  {
    && (forall id :: id in order <==> id in contacts)
    && (forall i, j :: 0 <= i < j < |order| ==> order[i] != order[j])
    && |lines| == |order|
    && (forall k :: 0 <= k < |order| ==> order[k] in contacts && lines[k] == DumpLine(order[k], contacts[order[k]]))
  }

  class Directory {
    var contacts: map<Int32, Contact>

    constructor ()
      ensures contacts == map[]
    {
      contacts := map[];
    }

    /** Unconditional upsert: the id now maps to exactly this contact, every other
        entry is as it was, and no id disappears. */
    method Put(id: Int32, ip: string, port: Int32)
      modifies this
      ensures contacts == old(contacts)[id := Contact(ip, port)]
      ensures contacts[id] == Contact(ip, port)
      ensures forall other :: other != id ==> (other in contacts <==> other in old(contacts))
      ensures forall other :: other != id && other in old(contacts) ==> contacts[other] == old(contacts)[other]
      ensures old(contacts).Keys <= contacts.Keys
    {
      contacts := contacts[id := Contact(ip, port)];
    }

    /** Lookup; `None` stands for Java's `null` and is returned exactly for an id
        that was never put. */
    method Get(id: Int32) returns (r: Option<Contact>)
      ensures r.None? <==> id !in contacts
      ensures r.Some? ==> id in contacts && r.value == contacts[id]
    {
      if id in contacts {
        r := Some(contacts[id]);
      } else {
        r := None;
      }
    }

    /** One pass over the entries: `order` is the (unspecified) iteration order,
        which visits every stored id exactly once, and `lines[k]` is the line printed
        for `order[k]`. The map is only read. */
    method Dump() returns (order: seq<Int32>, lines: seq<string>)
      ensures IsListing(contacts, order, lines)
    {
      var rest := contacts.Keys;
      order, lines := [], [];
      while rest != {}
        invariant rest <= contacts.Keys
        invariant forall id :: id in contacts ==> (id in order <==> id !in rest)
        invariant forall k :: 0 <= k < |order| ==> order[k] in contacts
        invariant forall i, j :: 0 <= i < j < |order| ==> order[i] != order[j]
        invariant |lines| == |order|
        invariant forall k :: 0 <= k < |order| ==> lines[k] == DumpLine(order[k], contacts[order[k]])
        decreases rest
      {
        var id :| id in rest;
        order, lines := order + [id], lines + [DumpLine(id, contacts[id])];
        rest := rest - {id};
      }
    }
  }
}
