/**
 * The byte source the request parser reads from (Go's io.Reader), modelled as a script:
 * a sequence of events, each either a chunk of data that the next Read calls hand out
 * or a failure. When the script is used up, Read reports end of input.
 */
module Stream {
  import opened Bytes

  datatype Event = Data(chunk: Bytes) | Failure

  datatype ReadStatus = ReadOk | Eof | ReadError

  /** The bytes a reader hands out before its first failure or its end. */
  function Delivered(events: seq<Event>): Bytes {
    if events == [] then []
    else match events[0]
      case Data(c) => c + Delivered(events[1..])
      case Failure => []
  }

  /** Whether the reader fails (rather than reaching its end) once its data is used up. */
  predicate Fails(events: seq<Event>) {
    events != [] && match events[0]
      case Data(_) => Fails(events[1..])
      case Failure => true
  }

  /** A measure that every Read with room for at least one byte makes smaller. */
  function Size(events: seq<Event>): nat {
    if events == [] then 0
    else (match events[0] case Data(c) => |c| case Failure => 0) + 1 + Size(events[1..])
  }

  /** What one Read hands out, what it reports, and the script left after it. */
  datatype ReadOutcome = ReadOutcome(bytes: Bytes, status: ReadStatus, rest: seq<Event>)

  /**
   * One Read with room for `room` bytes: as much of the next chunk as fits (a chunk
   * longer than the room stays at the head with its unread part), or the failure,
   * or end of input once the script is used up.
   */
  function NextRead(events: seq<Event>, room: nat): (o: ReadOutcome)
    ensures |o.bytes| <= room
    ensures o.status == Eof <==> events == []
    ensures o.status != ReadOk ==> o.bytes == []
    ensures o.status == ReadOk ==> Delivered(events) == o.bytes + Delivered(o.rest)
    ensures o.status == ReadOk ==> Fails(o.rest) == Fails(events)
    ensures o.status == ReadOk && room > 0 ==> Size(o.rest) < Size(events)
    ensures o.status == ReadError ==> Delivered(events) == [] && Fails(events)
  {
    if events == [] then ReadOutcome([], Eof, [])
    else match events[0]
      case Failure => ReadOutcome([], ReadError, events[1..])
      case Data(c) =>
        if |c| <= room then ReadOutcome(c, ReadOk, events[1..])
        else
          var rest := [Data(c[room..])] + events[1..];
          assert rest[1..] == events[1..];
          assert c == c[..room] + c[room..];
          ReadOutcome(c[..room], ReadOk, rest)
  }

  class Reader {
    var events: seq<Event>

    constructor (events: seq<Event>)
      ensures this.events == events
    {
      this.events := events;
    }

    /** Read into p[off..]: returns the number of bytes written and the status. */
    method Read(p: array<Byte>, off: nat) returns (k: nat, status: ReadStatus)
      requires off <= p.Length
      modifies this, p
      ensures var o := NextRead(old(events), p.Length - off);
        k == |o.bytes| && status == o.status && events == o.rest
          && off + k <= p.Length && p[off..off + k] == o.bytes
      ensures p[..off] == old(p[..off]) && p[off + k..] == old(p[off + k..])
    {
      if events == [] {
        return 0, Eof;
      }
      match events[0]
      case Failure =>
        events := events[1..];
        return 0, ReadError;
      case Data(c) =>
        k := if |c| <= p.Length - off then |c| else p.Length - off;
        forall i | off <= i < off + k {
          p[i] := c[i - off];
        }
        events := if k == |c| then events[1..] else [Data(c[k..])] + events[1..];
        status := ReadOk;
    }
  }
}
