/** add-missing-message.js: the earlier version of add-missing-messages.js
    that pushes only the message from Giorgio & Kelcey, the same record, and
    sorts the list by time, oldest first. */
module AddMissingMessage {
  import opened Wrappers
  import opened Messages
  import opened Sorting
  import opened AddMissingMessages

  /** The push and the sort, on the script's array. */
  method AddMissingMessage(messages: seq<Message>, clock: nat -> nat, rand: nat -> string)
    returns (result: seq<Message>)
    ensures result == SortByTime(messages + [Giorgio(|messages|, DrawnId(clock, rand, 0))], Ascending)
  {
    var n := |messages|;
    var newMessage := Giorgio(n, DrawnId(clock, rand, 0));
    var pushed := messages + [newMessage];
    var a := new Message[n + 1](i requires 0 <= i < n + 1 => pushed[i]);
    assert a[..] == pushed;
    SortInPlace(a, Ascending);
    result := a[..];
  }

  /** One more message than before, the old ones unchanged and the new one
      numbered n + 1, sorted oldest first and stable on equal times. */
  lemma AddMissingMessageFacts(messages: seq<Message>, g: string)
    ensures var n := |messages|;
      var r := SortByTime(messages + [Giorgio(n, g)], Ascending);
      |r| == n + 1 &&
      multiset(r) == multiset(messages) + multiset{Giorgio(n, g)} &&
      Sorted(r, Ascending) &&
      (forall t :: WithTime(r, t) == WithTime(messages + [Giorgio(n, g)], t)) &&
      Giorgio(n, g) in r && Giorgio(n, g).messageIndex == Some(n + 1)
  {
    var n := |messages|;
    var pushed := messages + [Giorgio(n, g)];
    SortByTimePermutes(pushed, Ascending);
    SortByTimeSorted(pushed, Ascending);
    forall t ensures WithTime(SortByTime(pushed, Ascending), t) == WithTime(pushed, t) {
      SortByTimeStable(pushed, Ascending, t);
    }
    assert Giorgio(n, g) in multiset(SortByTime(pushed, Ascending));
  }
}
