/** restore-messages.js: the backup is filtered by two test-message rules and
    every remaining message is posted to the message API, one after the other.
    The network is the parameter `server`: its answer to the `i`-th request. */
module RestoreMessages {
  import opened Wrappers
  import opened Seqs
  import opened Strings
  import opened Messages

  /** The rules of the filter callback: `chris` saying something containing
      `i love her`, or the name `i love her ` with its trailing space. */
  predicate IsTestMessage(m: Message) {
    (m.name == "chris" && Contains(m.message, "i love her")) || m.name == "i love her "
  }

  predicate Keep(m: Message) {
    !IsTestMessage(m)
  }

  /** `backupMessages.filter(...)`: the messages that are not test messages,
      in their order; a message with an empty name is kept. */
  function RealMessages(backup: seq<Message>): (r: seq<Message>)
    ensures forall m :: m in r <==> m in backup && !IsTestMessage(m)
    ensures forall m :: multiset(r)[m] == if IsTestMessage(m) then 0 else multiset(backup)[m]
    ensures forall i :: 0 <= i < |backup| && backup[i].name == "" ==> backup[i] in r
    ensures IsSubsequence(r, backup)
  {
    RealMessagesFacts(backup);
    RealMessagesCount(backup);
    Filter(backup, Keep)
  }

  /** The filter keeps every copy of a message that passes and none of one that does not. */
  lemma RealMessagesCount(backup: seq<Message>)
    ensures forall m :: multiset(Filter(backup, Keep))[m] == if IsTestMessage(m) then 0 else multiset(backup)[m]
  {
    forall m ensures multiset(Filter(backup, Keep))[m] == if IsTestMessage(m) then 0 else multiset(backup)[m] {
      FilterCount(backup, Keep, m);
    }
  }

  lemma RealMessagesFacts(backup: seq<Message>)
    ensures forall m :: m in Filter(backup, Keep) <==> m in backup && !IsTestMessage(m)
    ensures IsSubsequence(Filter(backup, Keep), backup)
  {
    forall m ensures m in Filter(backup, Keep) <==> m in backup && !IsTestMessage(m) {
      FilterMembership(backup, Keep, m);
    }
    FilterIsSubsequence(backup, Keep);
  }

  /** The body of the POST: `JSON.stringify({name, message, image})`, which
      leaves `image` out when it is undefined. */
  datatype Payload = Payload(name: string, message: string, image: Field)

  function PayloadOf(m: Message): Payload {
    Payload(m.name, m.message, m.image)
  }

  /** What a request can come back with: an HTTP answer, whose body may or may
      not parse as JSON, or a network error. */
  datatype Response = Answered(ok: bool, json: Option<string>) | Unreachable

  /** `restoreMessage`: the parsed reply of an ok answer; `null` for a failed
      status, a body that does not parse, or a network error. It never throws. */
  function RestoreMessage(response: Response): (r: Option<string>)
    ensures r.Some? <==> response.Answered? && response.ok && response.json.Some?
    ensures r.Some? ==> r == response.json
  {
    match response
    case Answered(ok, json) => if ok then json else None
    case Unreachable => None
  }

  /** `restoreAll`: one request per message, in order, whatever the earlier
      requests came back with. */
  method RestoreAll(kept: seq<Message>, server: nat -> Response)
    returns (requests: seq<Payload>, replies: seq<Option<string>>)
    ensures |requests| == |kept| && |replies| == |kept|
    ensures forall i :: 0 <= i < |kept| ==> requests[i] == PayloadOf(kept[i])
    ensures forall i :: 0 <= i < |kept| ==> replies[i] == RestoreMessage(server(i))
  {
    requests, replies := [], [];
    for i := 0 to |kept|
      invariant |requests| == i && |replies| == i
      invariant forall k :: 0 <= k < i ==> requests[k] == PayloadOf(kept[k])
      invariant forall k :: 0 <= k < i ==> replies[k] == RestoreMessage(server(k))
    {
      requests := requests + [PayloadOf(kept[i])];
      var reply := RestoreMessage(server(i));
      replies := replies + [reply];
    }
  }
}
