/** direct-restore.js: the batch file written by batch-restore.js becomes the
    list to upload. Each entry gets the id `restored_<now>_<index>`, its
    position from 1, its original time or the current one, and its inline
    image together with `hasImage: true` when it has one. `Date.now()` and
    `new Date()` are read per entry: they are the parameters `clock` and
    `today`, functions of the entry's position. */
module DirectRestore {
  import opened Wrappers
  import opened Strings
  import opened Messages
  import opened BatchRestore

  /** `restored_${Date.now()}_${index}`. */
  function RestoredId(now: nat, index: nat): string {
    "restored_" + NatToString(now) + "_" + NatToString(index)
  }

  /** The id determines both the clock reading and the position. */
  lemma RestoredIdInjective(now1: nat, i: nat, now2: nat, j: nat)
    requires RestoredId(now1, i) == RestoredId(now2, j)
    ensures now1 == now2 && i == j
  {
    var a, b, c, d := NatToString(now1), NatToString(i), NatToString(now2), NatToString(j);
    var p := "restored_";
    Regroup(p, a, b);
    Regroup(p, c, d);
    PrefixCancel(p, a + ['_'] + b, c + ['_'] + d);
    assert '_' !in a && '_' !in c;
    SeparatedParts(a, b, c, d, '_');
    NatToStringInjective(now1, now2);
    NatToStringInjective(i, j);
  }

  lemma Regroup(p: string, a: string, b: string)
    ensures p + a + "_" + b == p + (a + ['_'] + b)
  {
  }

  /** The object the `map` callback builds for the entry at `index`. Its
      properties are exactly `name`, `message`, `id`, `timestamp`,
      `messageIndex`, and `image` with `hasImage` when spread in. */
  function Processed(e: BatchEntry, index: nat, clock: nat -> nat, today: nat -> int): Message {
    Message(
      e.name,
      e.message,
      if Truthy(e.image) then e.image else Missing,
      Missing,
      Str(RestoredId(clock(index), index)),
      if e.originalTimestamp.Some? then e.originalTimestamp.value else today(index),
      if Truthy(e.image) then Some(true) else None,
      Some(index + 1))
  }

  /** `allMessages.map((msg, index) => ...)`. */
  function ProcessedMessages(all: seq<BatchEntry>, clock: nat -> nat, today: nat -> int): (r: seq<Message>)
    ensures |r| == |all|
    ensures forall i :: 0 <= i < |r| ==> r[i].messageIndex == Some(i + 1)
    ensures forall i :: 0 <= i < |r| ==>
      r[i].timestamp == (if all[i].originalTimestamp.Some? then all[i].originalTimestamp.value else today(i))
    ensures forall i :: 0 <= i < |r| ==>
      (r[i].image != Missing <==> Truthy(all[i].image)) &&
      (r[i].hasImage != None <==> Truthy(all[i].image)) &&
      (r[i].image != Missing ==> r[i].image == all[i].image && r[i].hasImage == Some(true))
    ensures forall i :: 0 <= i < |r| ==> r[i].imageUrl == Missing && r[i].name == all[i].name && r[i].message == all[i].message
  {
    seq(|all|, i requires 0 <= i < |all| => Processed(all[i], i, clock, today))
  }

  /** Within one run no two uploaded messages share an id, whatever the clock
      reads. */
  lemma ProcessedIdsDistinct(all: seq<BatchEntry>, clock: nat -> nat, today: nat -> int)
    ensures var r := ProcessedMessages(all, clock, today);
      forall i, j :: 0 <= i < j < |r| ==> r[i].id != r[j].id
  {
    var r := ProcessedMessages(all, clock, today);
    forall i, j | 0 <= i < j < |r| ensures r[i].id != r[j].id {
      if r[i].id == r[j].id {
        assert RestoredId(clock(i), i) == RestoredId(clock(j), j);
        RestoredIdInjective(clock(i), i, clock(j), j);
        assert false;
      }
    }
  }

  /** The two scripts run one after the other: the uploaded list holds the
      kept backup messages in order, each with its own original time (the
      fallback to the current time never applies), its inline image exactly
      when it had one, and the position from 1. */
  lemma BatchThenDirect(backup: seq<Message>, clock: nat -> nat, today: nat -> int)
    ensures var kept := RealMessages(backup);
      var r := ProcessedMessages(BatchData(kept), clock, today);
      |r| == |kept| &&
      forall i :: 0 <= i < |r| ==>
        r[i].name == kept[i].name && r[i].message == kept[i].message &&
        r[i].timestamp == kept[i].timestamp &&
        r[i].messageIndex == Some(i + 1) &&
        (Truthy(kept[i].image) ==> r[i].image == kept[i].image) &&
        (!Truthy(kept[i].image) ==> r[i].image == Missing)
  {
  }
}
