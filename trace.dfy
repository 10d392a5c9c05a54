/** Sequences of publish and delete requests run one after another against the
    store, and what they add up to. */
module Trace {
  import opened Api
  import opened Server

  /** One request to the store, with the id and clock reading a publish gets. */
  datatype Op =
    | Publish(req: MessageBody, id: string, now: Instant)
    | Delete(prefix: string)

  /** The store after one request: the new state PublishMessage and
      DeleteMessage ensure. */
  function Step(msgs: seq<Message>, op: Op): seq<Message>
  {
    match op
    case Publish(req, id, now) => msgs + [NewMessage(req, id, now)]
    case Delete(prefix) => Deleted(msgs, prefix)
  }

  /** The store after the requests in `ops`, in order. */
  function Run(msgs: seq<Message>, ops: seq<Op>): seq<Message>
    decreases |ops|
  {
    if ops == [] then msgs else Run(Step(msgs, ops[0]), ops[1..])
  }

  /** How many of the requests are publishes. */
  function Publishes(ops: seq<Op>): nat
  {
    if ops == [] then 0 else (if ops[0].Publish? then 1 else 0) + Publishes(ops[1..])
  }

  /** How many of the requests are deletes that found a message to remove. */
  function MatchedDeletes(msgs: seq<Message>, ops: seq<Op>): nat
    decreases |ops|
  {
    if ops == [] then 0
    else
      (if ops[0].Delete? && FirstMatch(msgs, ops[0].prefix).Some? then 1 else 0)
      + MatchedDeletes(Step(msgs, ops[0]), ops[1..])
  }

  /** Every publish in `ops` is given an id no message held at that moment has,
      and a clock reading with nanoseconds in range. */
  predicate FreshRequests(msgs: seq<Message>, ops: seq<Op>)
    decreases |ops|
  {
    ops == [] ||
    ((ops[0].Publish? ==>
        IdUnused(msgs, ops[0].id) && 0 <= ops[0].now.nanosecond < NanosPerSecond)
     && FreshRequests(Step(msgs, ops[0]), ops[1..]))
  }

  /** The message a publish request stores. */
  function Announced(op: Op): Message
    requires op.Publish?
  {
    NewMessage(op.req, op.id, op.now)
  }

  /** The store's size is what it started with, plus the publishes, minus the
      deletes that removed something. */
  lemma {:induction false} RunSize(msgs: seq<Message>, ops: seq<Op>)
    ensures |Run(msgs, ops)| + MatchedDeletes(msgs, ops) == |msgs| + Publishes(ops)
    decreases |ops|
  {
    if ops != [] {
      RunSize(Step(msgs, ops[0]), ops[1..]);
    }
  }

  /** With only publishes, the store ends with exactly the published messages,
      after what it held, in the order they were published. */
  lemma {:induction false} PublishesAppendInOrder(msgs: seq<Message>, ops: seq<Op>)
    requires forall k :: 0 <= k < |ops| ==> ops[k].Publish?
    ensures |Run(msgs, ops)| == |msgs| + |ops|
    ensures Run(msgs, ops)[..|msgs|] == msgs
    ensures forall k :: 0 <= k < |ops| ==> Run(msgs, ops)[|msgs| + k] == Announced(ops[k])
    decreases |ops|
  {
    if ops != [] {
      var next := msgs + [Announced(ops[0])];
      PublishesAppendInOrder(next, ops[1..]);
      var r := Run(msgs, ops);
      assert r == Run(next, ops[1..]);
      assert r[..|msgs|] == next[..|next|][..|msgs|];
      forall k | 0 <= k < |ops|
        ensures r[|msgs| + k] == Announced(ops[k])
      {
        if k > 0 {
          assert ops[1..][k - 1] == ops[k];
          assert r[|next| + (k - 1)] == Announced(ops[1..][k - 1]);
        } else {
          assert r[..|next|] == next;
        }
      }
    }
  }

  /** Fresh ids and in-range clock readings keep the store's invariants over
      any run of requests. */
  lemma {:induction false} RunKeepsInvariants(msgs: seq<Message>, ops: seq<Op>)
    requires DistinctIds(msgs) && NanosInRange(msgs)
    requires FreshRequests(msgs, ops)
    ensures DistinctIds(Run(msgs, ops)) && NanosInRange(Run(msgs, ops))
    decreases |ops|
  {
    if ops != [] {
      match ops[0] {
        case Publish(req, id, now) =>
          AppendFreshKeepsDistinct(msgs, NewMessage(req, id, now));
        case Delete(prefix) =>
          DeleteKeepsInvariants(msgs, prefix);
      }
      RunKeepsInvariants(Step(msgs, ops[0]), ops[1..]);
    }
  }

  /** Alice and Bob each publish; deleting by the first four characters of
      Alice's id matches her message, even when Bob's id starts the same way,
      and leaves Bob's message alone. */
  lemma AliceAndBob(a: string, b: string, t1: Instant, t2: Instant)
    requires |a| >= 4
    ensures
      var alice := NewMessage(MessageBody("alice", "hi"), a, t1);
      var bob := NewMessage(MessageBody("bob", "yo"), b, t2);
      var published := [Publish(MessageBody("alice", "hi"), a, t1),
                        Publish(MessageBody("bob", "yo"), b, t2)];
      Run([], published) == [alice, bob] &&
      FirstMatch([alice, bob], a[..4]) == Some(0) &&
      Run([], published + [Delete(a[..4])]) == [bob]
  {
    var alice := NewMessage(MessageBody("alice", "hi"), a, t1);
    var bob := NewMessage(MessageBody("bob", "yo"), b, t2);
    var published := [Publish(MessageBody("alice", "hi"), a, t1),
                      Publish(MessageBody("bob", "yo"), b, t2)];
    var ops := published + [Delete(a[..4])];
    assert Step([], published[0]) == [alice];
    assert Step([alice], published[1]) == [alice, bob];
    assert published[1..] == [published[1]] && published[1..][1..] == [];
    assert Run([], published) == Run([alice], [published[1]]) == Run([alice, bob], []);
    assert HasPrefix(alice.id, a[..4]);
    assert FirstMatch([alice, bob], a[..4]) == Some(0);
    assert Deleted([alice, bob], a[..4]) == [bob];
    assert ops[1..] == [ops[1], ops[2]] && ops[1..][1..] == [ops[2]] && ops[1..][1..][1..] == [];
    assert Step([alice, bob], ops[2]) == [bob];
    assert Run([], ops) == Run([alice], ops[1..]) == Run([alice, bob], ops[1..][1..])
        == Run([bob], []);
  }

  /** The same session against a server object: after two publishes the
      stream receives both messages in publish order, the delete by Alice's
      four-character prefix answers with a `Void`, and a second listing
      receives Bob's message alone, which is all the store still holds. */
  method AliceAndBobSession(a: string, b: string, t1: Instant, t2: Instant)
    returns (firstCount: nat, removed: Option<Void>, left: seq<Message>)
    requires |a| >= 4 && a != b
    requires 0 <= t1.nanosecond < NanosPerSecond && 0 <= t2.nanosecond < NanosPerSecond
    ensures firstCount == 2 && removed == Some(Void)
    ensures left == [NewMessage(MessageBody("bob", "yo"), b, t2)]
  {
    var s := new Server();
    var idA := s.PublishMessage(MessageBody("alice", "hi"), a, t1);
    var idB := s.PublishMessage(MessageBody("bob", "yo"), b, t2);
    var alice := NewMessage(MessageBody("alice", "hi"), a, t1);
    var bob := NewMessage(MessageBody("bob", "yo"), b, t2);
    assert s.msgs == [alice, bob];
    var err;
    ghost var delivered;
    firstCount, err, delivered := s.ListMessages((k: nat, m: Message) => None);
    assert HasPrefix(alice.id, idA.id[..4]);
    assert FirstMatch(s.msgs, idA.id[..4]) == Some(0);
    removed := s.DeleteMessage(UUID(idA.id[..4]));
    assert removed.Some?;
    assert removed.value == Void;
    assert s.msgs == [bob];
    var secondCount;
    secondCount, err, delivered := s.ListMessages((k: nat, m: Message) => None);
    assert secondCount == 1 && delivered == [bob];
    left := s.msgs;
  }
}
