/** batch-restore.js: the backup is filtered by three test-message rules and
    each remaining message becomes an entry of the batch file, numbered from 1. */
module BatchRestore {
  import opened Wrappers
  import opened Seqs
  import opened Strings
  import opened Messages
  import RestoreMessages

  /** The rules of the filter callback: those of restore-messages.js, and an
      empty name as well. */
  predicate IsTestMessage(m: Message) {
    (m.name == "chris" && Contains(m.message, "i love her")) ||
    m.name == "i love her " ||
    m.name == ""
  }

  predicate Keep(m: Message) {
    !IsTestMessage(m)
  }

  /** `backupMessages.filter(...)`. */
  function RealMessages(backup: seq<Message>): (r: seq<Message>)
    ensures forall m :: m in r <==> m in backup && !IsTestMessage(m)
    ensures forall m :: multiset(r)[m] == if IsTestMessage(m) then 0 else multiset(backup)[m]
    ensures forall i :: 0 <= i < |r| ==> r[i].name != ""
    ensures IsSubsequence(r, backup)
    ensures (forall i :: 0 <= i < |backup| ==> !IsTestMessage(backup[i])) ==> r == backup
  {
    RealMessagesFacts(backup);
    RealMessagesCount(backup);
    Filter(backup, Keep)
  }

  /** The filter keeps every copy of a message that passes and none of one that does not. */
  lemma RealMessagesCount(backup: seq<Message>)
    ensures forall m :: multiset(Filter(backup, Keep))[m] == if IsTestMessage(m) then 0 else multiset(backup)[m]
  {
    forall m ensures multiset(Filter(backup, Keep))[m] == if IsTestMessage(m) then 0 else multiset(backup)[m] {
      FilterCount(backup, Keep, m);
    }
  }

  lemma RealMessagesFacts(backup: seq<Message>)
    ensures forall m :: m in Filter(backup, Keep) <==> m in backup && !IsTestMessage(m)
    ensures IsSubsequence(Filter(backup, Keep), backup)
    ensures (forall i :: 0 <= i < |backup| ==> !IsTestMessage(backup[i])) ==> Filter(backup, Keep) == backup
  {
    forall m ensures m in Filter(backup, Keep) <==> m in backup && !IsTestMessage(m) {
      FilterMembership(backup, Keep, m);
    }
    FilterIsSubsequence(backup, Keep);
    if forall i :: 0 <= i < |backup| ==> !IsTestMessage(backup[i]) {
      FilterKeepsAll(backup, Keep);
    }
  }

  predicate Named(m: Message) {
    m.name != ""
  }

  /** This filter is the one of restore-messages.js followed by dropping the
      unnamed messages. */
  lemma StricterThanRestoreMessages(backup: seq<Message>)
    ensures RealMessages(backup) == Filter(RestoreMessages.RealMessages(backup), Named)
  {
    FilterTwice(backup, RestoreMessages.Keep, Named, Keep);
  }

  /** An object of `batchData`. `originalTimestamp` is `None` when the
      property is absent or falsy. */
  datatype BatchEntry = BatchEntry(
    name: string,
    message: string,
    image: Field,
    originalId: Field,
    originalTimestamp: Option<int>,
    messageIndex: int)

  function Entry(m: Message, index: nat): BatchEntry {
    BatchEntry(m.name, m.message, m.image, m.id, Some(m.timestamp), index + 1)
  }

  /** `realMessages.map((msg, index) => ...)`: one entry per message that
      copies its name, message, image, id and time and numbers it from 1. */
  function BatchData(kept: seq<Message>): (r: seq<BatchEntry>)
    ensures |r| == |kept|
    ensures forall i :: 0 <= i < |r| ==>
      r[i].name == kept[i].name && r[i].message == kept[i].message && r[i].image == kept[i].image &&
      r[i].originalId == kept[i].id && r[i].originalTimestamp == Some(kept[i].timestamp) &&
      r[i].messageIndex == i + 1
  {
    seq(|kept|, i requires 0 <= i < |kept| => Entry(kept[i], i))
  }

  /** The numbers 1 .. n. */
  function UpTo(n: nat): (r: set<int>)
    ensures forall k :: k in r <==> 1 <= k <= n
  {
    if n == 0 then {} else UpTo(n - 1) + {n}
  }

  /** The entries carry the numbers 1 .. n, each once, in list order. */
  lemma {:induction false} BatchIndices(kept: seq<Message>)
    ensures (set i | 0 <= i < |kept| :: BatchData(kept)[i].messageIndex) == UpTo(|kept|)
    ensures forall i, j :: 0 <= i < j < |kept| ==> BatchData(kept)[i].messageIndex < BatchData(kept)[j].messageIndex
  {
    var r := BatchData(kept);
    forall k | k in UpTo(|kept|) ensures k in (set i | 0 <= i < |kept| :: r[i].messageIndex) {
      assert r[k - 1].messageIndex == k;
    }
  }
}
