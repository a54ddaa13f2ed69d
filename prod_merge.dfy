/** The deduplication of the production restore script: every message is
    filed in a `Map` under its signature; a later message with the same
    signature replaces the filed one only under the replacement rule, and the
    map's values, in insertion order of the keys, are the result. The
    definitions take the signature function as the parameter `key`, so that
    the proofs about the loop do not depend on how a signature is computed;
    the script's instance is `key == Signature`. */
module RestoreWithProdMerge {
  import opened Seqs
  import opened Messages
  import opened RestoreWithProdText

  /** `messageMap`: the filed message per signature, and the signatures in the
      order they were first set (the iteration order of a `Map`). */
  datatype Table = Table(entries: map<string, Message>, order: seq<string>)

  /** One turn of the `forEach`: file an unseen signature, or apply the
      replacement rule to the filed message. */
  function Step(t: Table, msg: Message, key: Message -> string): Table {
    var sig := key(msg);
    if sig in t.entries then
      var existing := t.entries[sig];
      if Truthy(msg.imageUrl) && !Truthy(existing.imageUrl) then Table(t.entries[sig := msg], t.order)
      else if Truthy(msg.id) && !Truthy(existing.id) then Table(t.entries[sig := msg], t.order)
      else t
    else Table(t.entries[sig := msg], t.order + [sig])
  }

  /** The map after the loop over `all`. */
  function MergeAll(all: seq<Message>, key: Message -> string): Table {
    if all == [] then Table(map[], []) else Step(MergeAll(all[..|all| - 1], key), all[|all| - 1], key)
  }

  /** The keys are the ordered signatures, each once, and each filed message
      carries its key as signature. */
  ghost predicate Consistent(t: Table, key: Message -> string) {
    (forall k :: k in t.entries <==> k in t.order) &&
    (forall i, j :: 0 <= i < j < |t.order| ==> t.order[i] != t.order[j]) &&
    (forall k :: k in t.entries ==> key(t.entries[k]) == k)
  }

  /** `Array.from(messageMap.values())`. */
  function Values(t: Table): (vs: seq<Message>)
    requires forall i :: 0 <= i < |t.order| ==> t.order[i] in t.entries
    ensures |vs| == |t.order|
    ensures forall i :: 0 <= i < |vs| ==> vs[i] == t.entries[t.order[i]]
    ensures forall m :: m in vs <==> exists k :: k in t.order && k in t.entries && t.entries[k] == m
  {
    seq(|t.order|, i requires 0 <= i < |t.order| => t.entries[t.order[i]])
  }

  /** The signatures of `all`, in order. */
  function Signatures(all: seq<Message>, key: Message -> string): (r: seq<string>)
    ensures |r| == |all|
    ensures forall i :: 0 <= i < |all| ==> r[i] == key(all[i])
  {
    if all == [] then [] else Signatures(all[..|all| - 1], key) + [key(all[|all| - 1])]
  }

  lemma {:induction false} MergeConsistent(all: seq<Message>, key: Message -> string)
    ensures Consistent(MergeAll(all, key), key)
  {
    if all != [] {
      MergeConsistent(all[..|all| - 1], key);
    }
  }

  /** The keys are exactly the signatures that occur in `all`. */
  lemma {:induction false} MergeKeys(all: seq<Message>, key: Message -> string)
    ensures forall k :: k in MergeAll(all, key).entries <==> k in Signatures(all, key)
  {
    if all != [] {
      MergeKeys(all[..|all| - 1], key);
    }
  }

  /** The keys come out in the order of each signature's first occurrence. */
  lemma {:induction false} MergeOrder(all: seq<Message>, key: Message -> string)
    ensures MergeAll(all, key).order == Distinct(Signatures(all, key))
  {
    if all != [] {
      var init := all[..|all| - 1];
      MergeOrder(init, key);
      MergeKeys(init, key);
      var ss := Signatures(all, key);
      assert ss[..|ss| - 1] == Signatures(init, key);
    }
  }

  /** Messages with equal keys agree on whether they have an `imageUrl`. */
  ghost predicate KeepsImageKind(key: Message -> string) {
    forall a, b :: key(a) == key(b) ==> Truthy(a.imageUrl) == Truthy(b.imageUrl)
  }

  /** The signature determines whether there is an `imageUrl`. */
  lemma SignatureKeepsImageKind()
    ensures KeepsImageKind(Signature)
  {
    forall a, b | Signature(a) == Signature(b)
      ensures Truthy(a.imageUrl) == Truthy(b.imageUrl)
    {
      SignatureImage(a, b);
    }
  }

  /** Filing under the same signature means the same kind of image, so the
      rule that prefers a message with `imageUrl` never applies. */
  lemma UrlPreferenceNeverApplies(all: seq<Message>, msg: Message, key: Message -> string)
    requires KeepsImageKind(key) && key(msg) in MergeAll(all, key).entries
    ensures Truthy(msg.imageUrl) == Truthy(MergeAll(all, key).entries[key(msg)].imageUrl)
  {
    MergeConsistent(all, key);
  }

  function HasSignature(key: Message -> string, k: string): Message -> bool {
    m => key(m) == k
  }

  predicate HasId(m: Message) {
    Truthy(m.id)
  }

  /** The message kept for signature `k`, stated without the loop: the first
      message with that signature that has an `id`, or else the first one. */
  function Winner(all: seq<Message>, key: Message -> string, k: string): Message
    requires Filter(all, HasSignature(key, k)) != []
  {
    var same := Filter(all, HasSignature(key, k));
    var withId := Filter(same, HasId);
    if withId != [] then withId[0] else same[0]
  }

  /** The filed message for every signature is its winner, when equal keys
      mean the same kind of image (as for signatures). */
  lemma {:induction false} MergeWinner(all: seq<Message>, key: Message -> string, k: string)
    requires KeepsImageKind(key) && k in MergeAll(all, key).entries
    ensures Filter(all, HasSignature(key, k)) != []
    ensures MergeAll(all, key).entries[k] == Winner(all, key, k)
  {
    var init, last := all[..|all| - 1], all[|all| - 1];
    assert all == init + [last];
    FilterConcat(init, [last], HasSignature(key, k));
    FilterSingle(last, HasSignature(key, k));
    if key(last) != k {
      assert !HasSignature(key, k)(last);
      assert Filter(all, HasSignature(key, k)) == Filter(init, HasSignature(key, k));
      MergeWinner(init, key, k);
    } else if k in MergeAll(init, key).entries {
      MergeWinner(init, key, k);
      WinnerAgain(all, key, k);
    } else {
      WinnerFirst(all, key, k);
    }
  }

  /** A message whose signature is already filed replaces the winner exactly
      when it is the first one with an `id`. */
  lemma WinnerAgain(all: seq<Message>, key: Message -> string, k: string)
    requires KeepsImageKind(key) && all != [] && key(all[|all| - 1]) == k
    requires k in MergeAll(all[..|all| - 1], key).entries
    requires Filter(all[..|all| - 1], HasSignature(key, k)) != []
    requires MergeAll(all[..|all| - 1], key).entries[k] == Winner(all[..|all| - 1], key, k)
    requires Filter(all, HasSignature(key, k)) == Filter(all[..|all| - 1], HasSignature(key, k)) + [all[|all| - 1]]
    ensures MergeAll(all, key).entries[k] == Winner(all, key, k)
  {
    var init, last := all[..|all| - 1], all[|all| - 1];
    UrlPreferenceNeverApplies(init, last, key);
    var existing := MergeAll(init, key).entries[k];
    var same0 := Filter(init, HasSignature(key, k));
    FilterConcat(same0, [last], HasId);
    FilterSingle(last, HasId);
    if Filter(same0, HasId) == [] {
      FilterMembership(same0, HasId, existing);
    }
  }

  /** A message with a signature not filed yet is its first and only message. */
  lemma WinnerFirst(all: seq<Message>, key: Message -> string, k: string)
    requires all != [] && key(all[|all| - 1]) == k
    requires k !in MergeAll(all[..|all| - 1], key).entries
    requires Filter(all, HasSignature(key, k)) == Filter(all[..|all| - 1], HasSignature(key, k)) + [all[|all| - 1]]
    ensures MergeAll(all, key).entries[k] == Winner(all, key, k)
  {
    var init := all[..|all| - 1];
    MergeKeys(init, key);
    forall i | 0 <= i < |init| ensures !HasSignature(key, k)(init[i]) {
      assert Signatures(init, key)[i] == key(init[i]);
    }
    FilterNone(init, HasSignature(key, k));
  }

  /** The deduplicated list: one message per distinct signature, in order of
      first occurrence, each the winner for its signature. */
  lemma DeduplicatedValues(all: seq<Message>, key: Message -> string)
    requires KeepsImageKind(key)
    ensures Consistent(MergeAll(all, key), key)
    ensures |Values(MergeAll(all, key))| == |Distinct(Signatures(all, key))|
    ensures forall j :: 0 <= j < |Values(MergeAll(all, key))| ==>
      key(Values(MergeAll(all, key))[j]) == Distinct(Signatures(all, key))[j]
    ensures forall j :: 0 <= j < |Values(MergeAll(all, key))| ==>
      Filter(all, HasSignature(key, Distinct(Signatures(all, key))[j])) != [] &&
      Values(MergeAll(all, key))[j] == Winner(all, key, Distinct(Signatures(all, key))[j])
  {
    MergeConsistent(all, key);
    MergeOrder(all, key);
    var t := MergeAll(all, key);
    forall j | 0 <= j < |t.order| ensures Filter(all, HasSignature(key, t.order[j])) != [] &&
      t.entries[t.order[j]] == Winner(all, key, t.order[j])
    {
      MergeWinner(all, key, t.order[j]);
    }
  }

  /** What the deduplicated list `vs` of `all` is: one message per key, every
      key of `all` present, each a message of `all`, and the first message with
      an `id` among those with its key when there is one. */
  ghost predicate Summarised(all: seq<Message>, key: Message -> string, vs: seq<Message>) {
    (forall i, j :: 0 <= i < j < |vs| ==> key(vs[i]) != key(vs[j])) &&
    (forall i :: 0 <= i < |all| ==> exists j :: 0 <= j < |vs| && key(vs[j]) == key(all[i])) &&
    (forall j :: 0 <= j < |vs| ==> vs[j] in all) &&
    (forall j :: 0 <= j < |vs| ==>
      Filter(all, HasSignature(key, key(vs[j]))) != [] && vs[j] == Winner(all, key, key(vs[j])))
  }

  lemma MergeSummary(all: seq<Message>, key: Message -> string)
    requires KeepsImageKind(key)
    ensures Consistent(MergeAll(all, key), key)
    ensures Summarised(all, key, Values(MergeAll(all, key)))
  {
    MergeConsistent(all, key);
    MergeDistinctKeys(all, key);
    MergeCoversKeys(all, key);
    MergeWinners(all, key);
    MergeFromInput(all, key);
  }

  lemma MergeDistinctKeys(all: seq<Message>, key: Message -> string)
    requires KeepsImageKind(key)
    ensures Consistent(MergeAll(all, key), key)
    ensures var vs := Values(MergeAll(all, key));
      forall i, j :: 0 <= i < j < |vs| ==> key(vs[i]) != key(vs[j])
  {
    DeduplicatedValues(all, key);
  }

  lemma MergeCoversKeys(all: seq<Message>, key: Message -> string)
    ensures Consistent(MergeAll(all, key), key)
    ensures var vs := Values(MergeAll(all, key));
      forall i :: 0 <= i < |all| ==> exists j :: 0 <= j < |vs| && key(vs[j]) == key(all[i])
  {
    MergeConsistent(all, key);
    var t := MergeAll(all, key);
    var vs := Values(t);
    forall i | 0 <= i < |all| ensures exists j :: 0 <= j < |vs| && key(vs[j]) == key(all[i]) {
      var j := KeyPosition(all, key, i);
      assert key(vs[j]) == key(all[i]);
    }
  }

  /** Where the key of `all[i]` sits in the key order. */
  lemma KeyPosition(all: seq<Message>, key: Message -> string, i: nat) returns (j: nat)
    requires i < |all|
    ensures j < |MergeAll(all, key).order| && MergeAll(all, key).order[j] == key(all[i])
  {
    MergeConsistent(all, key);
    MergeKeys(all, key);
    assert Signatures(all, key)[i] == key(all[i]);
    var t := MergeAll(all, key);
    assert key(all[i]) in t.order;
    j :| 0 <= j < |t.order| && t.order[j] == key(all[i]);
  }

  lemma MergeWinners(all: seq<Message>, key: Message -> string)
    requires KeepsImageKind(key)
    ensures Consistent(MergeAll(all, key), key)
    ensures var vs := Values(MergeAll(all, key));
      forall j :: 0 <= j < |vs| ==>
        Filter(all, HasSignature(key, key(vs[j]))) != [] && vs[j] == Winner(all, key, key(vs[j]))
  {
    DeduplicatedValues(all, key);
  }

  lemma MergeFromInput(all: seq<Message>, key: Message -> string)
    ensures Consistent(MergeAll(all, key), key)
    ensures var vs := Values(MergeAll(all, key));
      forall j :: 0 <= j < |vs| ==> vs[j] in all
  {
    MergeConsistent(all, key);
    MergeEntriesFromInput(all, key);
  }

  lemma {:induction false} MergeEntriesFromInput(all: seq<Message>, key: Message -> string)
    ensures forall k :: k in MergeAll(all, key).entries ==> MergeAll(all, key).entries[k] in all
  {
    if all != [] {
      MergeEntriesFromInput(all[..|all| - 1], key);
      assert all == all[..|all| - 1] + [all[|all| - 1]];
    }
  }

  /** The `messageMap` loop over `allMessages`, then `Array.from(messageMap.values())`. */
  method DeduplicateBySignature(all: seq<Message>, key: Message -> string) returns (values: seq<Message>)
    ensures Consistent(MergeAll(all, key), key)
    ensures values == Values(MergeAll(all, key))
  {
    var entries: map<string, Message> := map[];
    var order: seq<string> := [];
    for i := 0 to |all|
      invariant Table(entries, order) == MergeAll(all[..i], key)
    {
      assert all[..i + 1][..i] == all[..i];
      var msg := all[i];
      var sig := key(msg);
      if sig in entries {
        var existing := entries[sig];
        if Truthy(msg.imageUrl) && !Truthy(existing.imageUrl) {
          entries := entries[sig := msg];
        } else if Truthy(msg.id) && !Truthy(existing.id) {
          entries := entries[sig := msg];
        }
      } else {
        entries := entries[sig := msg];
        order := order + [sig];
      }
    }
    assert all[..|all|] == all;
    MergeConsistent(all, key);
    values := seq(|order|, j requires 0 <= j < |order| && order[j] in entries => entries[order[j]]);
  }
}
