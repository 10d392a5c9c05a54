/** The in-memory message store: the server owns the ordered list of messages
    and publishes to its tail, deletes by identifier prefix and streams the list
    to a client. */
module Server {
  import opened Api

  datatype Option<T> = None | Some(value: T)

  /** The failure a stream reports when a message cannot be sent. */
  datatype StreamError = StreamError(reason: string)

  /** The current UTC time as the server reads it from the clock: whole
      seconds since the Unix epoch and the nanosecond within that second. */
  datatype Instant = Instant(unix: int64, nanosecond: int)

  // ---------------------------------------------------------------------
  // Specification functions
  // ---------------------------------------------------------------------

  /** `s` begins with `prefix` (strings.HasPrefix): the prefix is no longer
      than `s` and agrees with it character by character. */
  predicate HasPrefix(s: string, prefix: string): (r: bool)
    ensures r <==> |prefix| <= |s| && forall k :: 0 <= k < |prefix| ==> s[k] == prefix[k]
    ensures prefix == [] ==> r
  {
    |prefix| <= |s| && s[..|prefix|] == prefix
  }

  /** No two stored messages share an identifier. */
  predicate DistinctIds(msgs: seq<Message>)
  {
    forall i, j :: 0 <= i < j < |msgs| ==> msgs[i].id != msgs[j].id
  }

  /** No stored message carries `id`. */
  predicate IdUnused(msgs: seq<Message>, id: string)
  {
    forall k :: 0 <= k < |msgs| ==> msgs[k].id != id
  }

  /** Every stored timestamp keeps its nanoseconds in range. */
  predicate NanosInRange(msgs: seq<Message>)
  {
    forall k :: 0 <= k < |msgs| ==> ValidNanos(msgs[k].sentAt)
  }

  /** Go's conversion `int32(x)`: keeps the low 32 bits, read as two's complement. */
  function WrapInt32(x: int): (r: int32)
    ensures (r as int - x) % 0x1_0000_0000 == 0
    ensures -0x8000_0000 <= x < 0x8000_0000 ==> r as int == x
  {
    var m := x % 0x1_0000_0000;
    if m < 0x8000_0000 then m as int32 else (m - 0x1_0000_0000) as int32
  }

  /** The message built for a publish request, given the fresh id and the clock reading. */
  function NewMessage(req: MessageBody, id: string, now: Instant): (m: Message)
    ensures m.id == id
    ensures m.body.senderUsername == req.senderUsername && m.body.body == req.body
    ensures m.sentAt.seconds == now.unix
    ensures 0 <= now.nanosecond < NanosPerSecond ==>
              m.sentAt.nanos as int == now.nanosecond && ValidNanos(m.sentAt)
  {
    Message(id, MessageBody(req.senderUsername, req.body),
            Timestamp(now.unix, WrapInt32(now.nanosecond)))
  }

  /** The index of the earliest message whose id begins with `prefix`, if any. */
  function FirstMatch(msgs: seq<Message>, prefix: string): (r: Option<nat>)
    ensures r.Some? ==> r.value < |msgs| && HasPrefix(msgs[r.value].id, prefix)
    ensures r.Some? ==> forall j :: 0 <= j < r.value ==> !HasPrefix(msgs[j].id, prefix)
    ensures r.None? <==> forall j :: 0 <= j < |msgs| ==> !HasPrefix(msgs[j].id, prefix)
  {
    if |msgs| == 0 then None
    else if HasPrefix(msgs[0].id, prefix) then Some(0)
    else match FirstMatch(msgs[1..], prefix)
      case None => None
      case Some(i) => Some(i + 1)
  }

  /** `msgs` without its element at index `i`, everything else in order. */
  function RemoveAt(msgs: seq<Message>, i: nat): (r: seq<Message>)
    requires i < |msgs|
    ensures |r| == |msgs| - 1
    ensures forall j :: 0 <= j < i ==> r[j] == msgs[j]
    ensures forall j :: i <= j < |r| ==> r[j] == msgs[j + 1]
  {
    msgs[..i] + msgs[i + 1..]
  }

  /** The store after a delete request for `prefix`: unchanged exactly when
      no id matches, and one message shorter when one does. */
  function Deleted(msgs: seq<Message>, prefix: string): (r: seq<Message>)
    ensures FirstMatch(msgs, prefix).None? <==> r == msgs
    ensures FirstMatch(msgs, prefix).Some? ==> |r| == |msgs| - 1
  {
    match FirstMatch(msgs, prefix)
    case None => msgs
    case Some(i) => RemoveAt(msgs, i)
  }

  // ---------------------------------------------------------------------
  // Properties of the specification
  // ---------------------------------------------------------------------

  /** A delete that matches takes out one copy of the matched message and
      nothing else: the messages before and after are exactly the old ones. */
  lemma DeleteRemovesOneMessage(msgs: seq<Message>, prefix: string)
    requires FirstMatch(msgs, prefix).Some?
    ensures multiset(Deleted(msgs, prefix)) + multiset{msgs[FirstMatch(msgs, prefix).value]}
            == multiset(msgs)
  {
    var i := FirstMatch(msgs, prefix).value;
    assert msgs == msgs[..i] + [msgs[i]] + msgs[i + 1..];
    assert Deleted(msgs, prefix) == msgs[..i] + msgs[i + 1..];
  }

  /** When several ids share the prefix, only the earliest goes: every later
      match is still there, one place further forward. */
  lemma LaterMatchesRemain(msgs: seq<Message>, prefix: string, j: nat)
    requires j < |msgs| && HasPrefix(msgs[j].id, prefix)
    requires FirstMatch(msgs, prefix).value != j
    ensures FirstMatch(msgs, prefix).value < j
    ensures Deleted(msgs, prefix)[j - 1] == msgs[j]
  {
  }

  /** With distinct ids, a delete that matches takes out that message alone:
      it is gone afterwards and every other message is still present. */
  lemma DeleteOmitsOnlyMatch(msgs: seq<Message>, prefix: string)
    requires DistinctIds(msgs)
    requires FirstMatch(msgs, prefix).Some?
    ensures msgs[FirstMatch(msgs, prefix).value] !in Deleted(msgs, prefix)
    ensures forall j :: 0 <= j < |msgs| && j != FirstMatch(msgs, prefix).value ==>
              msgs[j] in Deleted(msgs, prefix)
  {
  }

  /** The empty prefix matches every id, so it deletes the oldest message. */
  lemma EmptyPrefixDeletesOldest(msgs: seq<Message>)
    requires |msgs| > 0
    ensures FirstMatch(msgs, "") == Some(0)
    ensures Deleted(msgs, "") == msgs[1..]
  {
  }

  /** Removing one message keeps the remaining ids distinct. */
  lemma RemoveAtKeepsDistinct(msgs: seq<Message>, i: nat)
    requires i < |msgs| && DistinctIds(msgs)
    ensures DistinctIds(RemoveAt(msgs, i))
  {
  }

  /** A delete keeps both store invariants. */
  lemma DeleteKeepsInvariants(msgs: seq<Message>, prefix: string)
    requires DistinctIds(msgs) && NanosInRange(msgs)
    ensures DistinctIds(Deleted(msgs, prefix)) && NanosInRange(Deleted(msgs, prefix))
  {
  }

  /** Appending a message with an unused id keeps the ids distinct. */
  lemma AppendFreshKeepsDistinct(msgs: seq<Message>, m: Message)
    requires DistinctIds(msgs) && IdUnused(msgs, m.id)
    ensures DistinctIds(msgs + [m])
  {
  }

  // ---------------------------------------------------------------------
  // The server
  // ---------------------------------------------------------------------

  class Server {
    /** The messages sent to the server, oldest first. */
    var msgs: seq<Message>

    /** Ids are unique and timestamps well formed. */
    ghost predicate Valid()
      reads this
    {
      DistinctIds(msgs) && NanosInRange(msgs)
    }

    /** A new server holds no messages. */
    constructor ()
      ensures Valid() && msgs == []
    {
      msgs := [];
    }

    /** Builds a message from the request with the given fresh id and clock
        reading, appends it to the tail and answers with its id. */
    method PublishMessage(req: MessageBody, id: string, now: Instant) returns (r: UUID)
      requires Valid()
      requires IdUnused(msgs, id)
      requires 0 <= now.nanosecond < NanosPerSecond
      modifies this
      ensures Valid()
      ensures msgs == old(msgs) + [NewMessage(req, id, now)]
      ensures r.id == id && msgs[|msgs| - 1].id == r.id
    {
      var msg := NewMessage(req, id, now);
      AppendFreshKeepsDistinct(msgs, msg);
      msgs := msgs + [msg];
      r := UUID(msg.id);
    }

    /** Scans from the oldest message and removes the first whose id begins
        with the requested string; answers `Some(Void)` when one was removed
        and `None` (Go's nil) otherwise. */
    method DeleteMessage(req: UUID) returns (r: Option<Void>)
      requires Valid()
      modifies this
      ensures Valid()
      ensures msgs == Deleted(old(msgs), req.id)
      ensures r.Some? <==> FirstMatch(old(msgs), req.id).Some?
      ensures r.Some? ==> |msgs| == |old(msgs)| - 1
      ensures r.None? ==> msgs == old(msgs)
    {
      DeleteKeepsInvariants(msgs, req.id);
      var i := 0;
      while i < |msgs|
        invariant 0 <= i <= |msgs|
        invariant msgs == old(msgs)
        invariant forall j :: 0 <= j < i ==> !HasPrefix(msgs[j].id, req.id)
      {
        if HasPrefix(msgs[i].id, req.id) {
          assert FirstMatch(msgs, req.id) == Some(i);
          if i + 1 == |msgs| {
            msgs := msgs[..i];
          } else {
            msgs := msgs[..i] + msgs[i + 1..];
          }
          return Some(Void);
        }
        i := i + 1;
      }
      return None;
    }

    /** Sends the messages to the stream in stored order, stopping at the
        first send that fails. `send(k, m)` is what the stream reports for the
        k-th send of this call, carrying `m`. `count` is the number of
        messages sent successfully, the figure the server logs; `delivered`
        is what the stream received, in the order it received it. */
    method ListMessages(send: (nat, Message) -> Option<StreamError>)
      returns (count: nat, err: Option<StreamError>, ghost delivered: seq<Message>)
      ensures count <= |msgs| && delivered == msgs[..count]
      ensures forall k :: 0 <= k < count ==> send(k, msgs[k]).None?
      ensures err.None? ==> count == |msgs| && delivered == msgs
      ensures err.Some? ==> count < |msgs| && send(count, msgs[count]) == err
      ensures err.None? <==> forall k :: 0 <= k < |msgs| ==> send(k, msgs[k]).None?
    {
      count, delivered := 0, [];
      var i := 0;
      while i < |msgs|
        invariant 0 <= i <= |msgs| && count == i
        invariant delivered == msgs[..i]
        invariant forall k :: 0 <= k < i ==> send(k, msgs[k]).None?
      {
        var e := send(i, msgs[i]);
        if e.Some? {
          return count, e, delivered;
        }
        delivered := delivered + [msgs[i]];
        count := count + 1;
        i := i + 1;
      }
      err := None;
    }
  }
}
