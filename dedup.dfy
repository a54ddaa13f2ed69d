/** The deduplication script: a message is a duplicate when an earlier one has
    the same key (trimmed name and message, the first 100 characters of the
    inline image, `imageUrl` and `hasImage`); the first of each key is kept,
    the kept messages are sorted newest first and any one without an `id` gets
    a fresh one. Fetching, the backup file and the upload are left out. */
module DeduplicateAllMessages {
  import opened Wrappers
  import opened Seqs
  import opened Strings
  import opened Messages
  import opened Sorting

  /** The object passed to `JSON.stringify`. `JSON.stringify` writes an
      undefined property not at all and `null` as `null`, and is otherwise
      injective on these values, so equal key strings are equal keys. */
  datatype Key = Key(name: string, message: string, imagePreview: Option<string>, imageUrl: Field, hasImage: Option<bool>)

  function KeyOf(m: Message): Key {
    Key(Trim(m.name), Trim(m.message),
        if Truthy(m.image) then Some(Take(m.image.text, 100)) else None,
        m.imageUrl, m.hasImage)
  }

  /** The report entry for a duplicate. */
  datatype Duplicate = Duplicate(index: nat, name: string, message: string, timestamp: int)

  function DuplicateOf(m: Message, index: nat): (d: Duplicate)
    ensures d.index == index && d.name == m.name && d.timestamp == m.timestamp
    ensures |d.message| == (if |m.message| < 50 then |m.message| else 50) + 3
    ensures EndsWith(d.message, "...")
    ensures StartsWith(m.message, d.message[..|d.message| - 3])
  {
    Duplicate(index, m.name, Take(m.message, 50) + "...", m.timestamp)
  }

  /** `seen`, `uniqueMessages` and `duplicates`. */
  datatype Scan = Scan(seen: set<Key>, unique: seq<Message>, duplicates: seq<Duplicate>)

  /** The three after the `forEach` over `all`. The key function is the
      parameter `key`, so that the proofs about the loop do not depend on how
      a key is computed; the script's instance is `key == KeyOf`. */
  function ScanAll(all: seq<Message>, key: Message -> Key): Scan {
    if all == [] then Scan({}, [], [])
    else
      var d := ScanAll(all[..|all| - 1], key);
      var m := all[|all| - 1];
      if key(m) in d.seen then d.(duplicates := d.duplicates + [DuplicateOf(m, |all| - 1)])
      else Scan(d.seen + {key(m)}, d.unique + [m], d.duplicates)
  }

  /** The `forEach` loop. */
  method Deduplicate(all: seq<Message>) returns (unique: seq<Message>, duplicates: seq<Duplicate>)
    ensures unique == ScanAll(all, KeyOf).unique && duplicates == ScanAll(all, KeyOf).duplicates
  {
    var seen: set<Key> := {};
    unique, duplicates := [], [];
    for index := 0 to |all|
      invariant Scan(seen, unique, duplicates) == ScanAll(all[..index], KeyOf)
    {
      assert all[..index + 1][..index] == all[..index];
      var msg := all[index];
      var key := KeyOf(msg);
      if key in seen {
        duplicates := duplicates + [DuplicateOf(msg, index)];
      } else {
        seen := seen + {key};
        unique := unique + [msg];
      }
    }
    assert all[..|all|] == all;
  }

  /** `seen` is the set of keys of the messages of `s`. */
  ghost predicate KeysOf(seen: set<Key>, s: seq<Message>, key: Message -> Key) {
    forall k :: k in seen <==> exists i :: 0 <= i < |s| && key(s[i]) == k
  }

  ghost predicate DistinctKeys(s: seq<Message>, key: Message -> Key) {
    forall i, j :: 0 <= i < j < |s| ==> key(s[i]) != key(s[j])
  }

  lemma KeyIn(seen: set<Key>, s: seq<Message>, key: Message -> Key, i: nat)
    requires KeysOf(seen, s, key) && i < |s|
    ensures key(s[i]) in seen
  {
    assert key(s[i]) == key(s[i]);
  }

  lemma KeyWitness(seen: set<Key>, s: seq<Message>, key: Message -> Key, k: Key) returns (i: nat)
    requires KeysOf(seen, s, key) && k in seen
    ensures i < |s| && key(s[i]) == k
  {
    i :| 0 <= i < |s| && key(s[i]) == k;
  }

  /** Appending a message adds its key to the keys of a list. */
  lemma KeysSnoc(seen: set<Key>, s: seq<Message>, key: Message -> Key, m: Message)
    requires KeysOf(seen, s, key)
    ensures KeysOf(seen + {key(m)}, s + [m], key)
    ensures key(m) in seen ==> KeysOf(seen, s + [m], key)
  {
    var t := s + [m];
    forall k ensures k in seen + {key(m)} <==> exists i :: 0 <= i < |t| && key(t[i]) == k {
      if k in seen {
        var i := KeyWitness(seen, s, key, k);
        assert t[i] == s[i];
      }
      if k == key(m) {
        assert t[|s|] == m;
      }
      if exists i :: 0 <= i < |t| && key(t[i]) == k {
        var i :| 0 <= i < |t| && key(t[i]) == k;
        if i < |s| {
          assert t[i] == s[i];
          KeyIn(seen, s, key, i);
        }
      }
    }
    if key(m) in seen {
      assert seen + {key(m)} == seen;
    }
  }

  /** `seen` holds the keys of all messages scanned. */
  lemma {:induction false} ScanSeen(all: seq<Message>, key: Message -> Key)
    ensures KeysOf(ScanAll(all, key).seen, all, key)
  {
    if all != [] {
      var init := all[..|all| - 1];
      ScanSeen(init, key);
      KeysSnoc(ScanAll(init, key).seen, init, key, all[|all| - 1]);
      assert all == init + [all[|all| - 1]];
    }
  }

  /** `seen` is also the set of keys of the kept messages. */
  lemma {:induction false} ScanSeenKept(all: seq<Message>, key: Message -> Key)
    ensures KeysOf(ScanAll(all, key).seen, ScanAll(all, key).unique, key)
  {
    if all != [] {
      var init := all[..|all| - 1];
      ScanSeenKept(init, key);
      var d0 := ScanAll(init, key);
      KeysSnoc(d0.seen, d0.unique, key, all[|all| - 1]);
    }
  }

  /** The kept messages have pairwise distinct keys. */
  lemma {:induction false} ScanDistinct(all: seq<Message>, key: Message -> Key)
    ensures DistinctKeys(ScanAll(all, key).unique, key)
  {
    if all != [] {
      var init := all[..|all| - 1];
      var m := all[|all| - 1];
      ScanDistinct(init, key);
      ScanSeenKept(init, key);
      var d0, d := ScanAll(init, key), ScanAll(all, key);
      if key(m) !in d0.seen {
        forall i, j | 0 <= i < j < |d.unique| ensures key(d.unique[i]) != key(d.unique[j]) {
          assert d.unique[i] == d0.unique[i];
          if j == |d0.unique| {
            assert d.unique[j] == m;
            KeyIn(d0.seen, d0.unique, key, i);
          } else {
            assert d.unique[j] == d0.unique[j];
          }
        }
      }
    }
  }

  /** Some message of `s` has key `k`. */
  ghost predicate HasKey(s: seq<Message>, key: Message -> Key, k: Key) {
    exists j :: 0 <= j < |s| && key(s[j]) == k
  }

  /** Every key of the scanned list is the key of a kept message. */
  lemma ScanCovers(all: seq<Message>, key: Message -> Key)
    ensures forall i :: 0 <= i < |all| ==> HasKey(ScanAll(all, key).unique, key, key(all[i]))
  {
    var d := ScanAll(all, key);
    ScanSeen(all, key);
    ScanSeenKept(all, key);
    forall i | 0 <= i < |all| ensures HasKey(d.unique, key, key(all[i])) {
      KeyIn(d.seen, all, key, i);
      var j := KeyWitness(d.seen, d.unique, key, key(all[i]));
    }
  }

  /** Every message is kept or reported, never both. */
  lemma {:induction false} ScanCounts(all: seq<Message>, key: Message -> Key)
    ensures |ScanAll(all, key).unique| + |ScanAll(all, key).duplicates| == |all|
  {
    if all != [] {
      ScanCounts(all[..|all| - 1], key);
    }
  }

  /** The flags of the messages whose key does not occur earlier. */
  function FirstMask(all: seq<Message>, key: Message -> Key): (mask: seq<bool>)
    ensures |mask| == |all|
  {
    seq(|all|, i requires 0 <= i < |all| => forall j :: 0 <= j < i ==> key(all[j]) != key(all[i]))
  }

  /** The kept messages are exactly the first message of each key, in order. */
  lemma {:induction false} ScanFirstOccurrences(all: seq<Message>, key: Message -> Key)
    ensures ScanAll(all, key).unique == Select(all, FirstMask(all, key))
    ensures IsSubsequence(ScanAll(all, key).unique, all)
  {
    if all != [] {
      var init := all[..|all| - 1];
      ScanFirstOccurrences(init, key);
      FirstMaskPrefix(all, key);
      FirstMaskLast(all, key);
    }
  }

  lemma FirstMaskPrefix(all: seq<Message>, key: Message -> Key)
    requires all != []
    ensures FirstMask(all, key)[..|all| - 1] == FirstMask(all[..|all| - 1], key)
  {
    var init := all[..|all| - 1];
    assert forall i :: 0 <= i < |init| ==> all[i] == init[i];
  }

  /** The last message is flagged exactly when its key is not yet seen. */
  lemma FirstMaskLast(all: seq<Message>, key: Message -> Key)
    requires all != []
    ensures FirstMask(all, key)[|all| - 1] <==> key(all[|all| - 1]) !in ScanAll(all[..|all| - 1], key).seen
  {
    var init := all[..|all| - 1];
    var m := all[|all| - 1];
    var seen0 := ScanAll(init, key).seen;
    ScanSeen(init, key);
    if key(m) in seen0 {
      var i := KeyWitness(seen0, init, key, key(m));
      assert all[i] == init[i];
    } else {
      forall j | 0 <= j < |init| ensures key(all[j]) != key(m) {
        assert all[j] == init[j];
        KeyIn(seen0, init, key, j);
      }
    }
  }

  /** A report names a position holding a message whose key occurred before
      it, and carries that message's data. */
  ghost predicate ReportValid(all: seq<Message>, key: Message -> Key, r: Duplicate) {
    r.index < |all| && r == DuplicateOf(all[r.index], r.index) &&
    exists j :: 0 <= j < r.index && key(all[j]) == key(all[r.index])
  }

  lemma ReportExtends(all: seq<Message>, key: Message -> Key, r: Duplicate)
    requires all != [] && ReportValid(all[..|all| - 1], key, r)
    ensures ReportValid(all, key, r)
  {
    var init := all[..|all| - 1];
    var j :| 0 <= j < r.index && key(init[j]) == key(init[r.index]);
    assert all[j] == init[j] && all[r.index] == init[r.index];
  }

  /** Every report is valid, and the reports are in increasing position order. */
  lemma ScanDuplicates(all: seq<Message>, key: Message -> Key)
    ensures forall d :: 0 <= d < |ScanAll(all, key).duplicates| ==> ReportValid(all, key, ScanAll(all, key).duplicates[d])
    ensures forall d, e :: 0 <= d < e < |ScanAll(all, key).duplicates| ==>
      ScanAll(all, key).duplicates[d].index < ScanAll(all, key).duplicates[e].index
  {
    ScanReportsValid(all, key);
    ScanReportsOrdered(all, key);
  }

  lemma {:induction false} ScanReportsValid(all: seq<Message>, key: Message -> Key)
    ensures forall d :: 0 <= d < |ScanAll(all, key).duplicates| ==> ReportValid(all, key, ScanAll(all, key).duplicates[d])
  {
    if all != [] {
      var init := all[..|all| - 1];
      var m := all[|all| - 1];
      ScanReportsValid(init, key);
      var ds0 := ScanAll(init, key).duplicates;
      forall d | 0 <= d < |ds0| ensures ReportValid(all, key, ds0[d]) {
        ReportExtends(all, key, ds0[d]);
      }
      if key(m) in ScanAll(init, key).seen {
        ScanSeen(init, key);
        var j := KeyWitness(ScanAll(init, key).seen, init, key, key(m));
        assert all[j] == init[j];
        assert ReportValid(all, key, DuplicateOf(m, |init|));
      }
    }
  }

  /** Reports are made at the position being scanned, so they come in order. */
  lemma {:induction false} ScanReportsOrdered(all: seq<Message>, key: Message -> Key)
    ensures forall d :: 0 <= d < |ScanAll(all, key).duplicates| ==> ScanAll(all, key).duplicates[d].index < |all|
    ensures forall d, e :: 0 <= d < e < |ScanAll(all, key).duplicates| ==>
      ScanAll(all, key).duplicates[d].index < ScanAll(all, key).duplicates[e].index
  {
    if all != [] {
      ScanReportsOrdered(all[..|all| - 1], key);
    }
  }

  /** Two messages whose inline images agree on their first 100 characters
      have the same key when the rest agrees: the script counts them as
      duplicates however their images go on. */
  lemma ImagesAgreeingOnPrefix(m: Message, p: string, x: string, y: string)
    requires |p| == 100
    ensures KeyOf(m.(image := Str(p + x))) == KeyOf(m.(image := Str(p + y)))
  {
    assert Take(p + x, 100) == p by {
      if x != [] { assert (p + x)[..100] == p; }
    }
    assert Take(p + y, 100) == p by {
      if y != [] { assert (p + y)[..100] == p; }
    }
  }

  /** The id fill over the sorted list: `newId(i)` is the id drawn for the
      message at position `i`. */
  function FillIds(s: seq<Message>, newId: nat -> string): (r: seq<Message>)
    ensures |r| == |s|
  {
    seq(|s|, i requires 0 <= i < |s| => if Truthy(s[i].id) then s[i] else s[i].(id := Str(newId(i))))
  }

  /** The id of the `i`-th filled message: `${Date.now()}${random}`. */
  function DrawnId(clock: nat -> nat, suffix: nat -> string): nat -> string {
    (i: nat) => NatToString(clock(i)) + suffix(i)
  }

  /** After the fill every message has an id, messages that had one are
      unchanged, and the others differ only in their id. */
  lemma FillIdsFacts(s: seq<Message>, clock: nat -> nat, suffix: nat -> string)
    ensures var r := FillIds(s, DrawnId(clock, suffix));
      forall i :: 0 <= i < |s| ==>
        Truthy(r[i].id) &&
        (Truthy(s[i].id) ==> r[i] == s[i]) &&
        r[i].(id := s[i].id) == s[i]
  {
    var r := FillIds(s, DrawnId(clock, suffix));
    forall i | 0 <= i < |s| ensures Truthy(r[i].id) {
      if !Truthy(s[i].id) {
        assert r[i].id == Str(NatToString(clock(i)) + suffix(i));
      }
    }
  }

  /** `msg.id = ...` on every message without one, in place. */
  method FillMissingIds(a: array<Message>, clock: nat -> nat, suffix: nat -> string)
    modifies a
    ensures a[..] == FillIds(old(a[..]), DrawnId(clock, suffix))
  {
    ghost var s := a[..];
    for i := 0 to a.Length
      invariant a[..i] == FillIds(s, DrawnId(clock, suffix))[..i]
      invariant a[i..] == s[i..]
    {
      if !Truthy(a[i].id) {
        a[i] := a[i].(id := Str(NatToString(clock(i)) + suffix(i)));
      }
    }
  }

  /** The script between fetching and uploading: the messages to upload and
      the duplicate report. */
  method DeduplicateAll(all: seq<Message>, clock: nat -> nat, suffix: nat -> string)
    returns (result: seq<Message>, duplicates: seq<Duplicate>)
    ensures result == FillIds(SortByTime(ScanAll(all, KeyOf).unique, Descending), DrawnId(clock, suffix))
    ensures duplicates == ScanAll(all, KeyOf).duplicates
  {
    var unique;
    unique, duplicates := Deduplicate(all);
    var a := new Message[|unique|](i requires 0 <= i < |unique| => unique[i]);
    assert a[..] == unique;
    SortInPlace(a, Descending);
    FillMissingIds(a, clock, suffix);
    result := a[..];
  }

  /** The uploaded list is newest first, as long as the kept list, every
      message in it has an id, and each is a kept message save for the id. */
  lemma DeduplicateAllFacts(all: seq<Message>, clock: nat -> nat, suffix: nat -> string)
    ensures var u := ScanAll(all, KeyOf).unique;
      var r := FillIds(SortByTime(u, Descending), DrawnId(clock, suffix));
      Sorted(r, Descending) && |r| == |u| &&
      (forall i :: 0 <= i < |r| ==> Truthy(r[i].id)) &&
      (forall i :: 0 <= i < |r| ==> exists j :: 0 <= j < |u| && r[i].(id := u[j].id) == u[j])
  {
    var u := ScanAll(all, KeyOf).unique;
    SortedFillFacts(u, clock, suffix);
  }

  /** The sort only reorders the kept messages, and the fill changes nothing
      but the missing ids: a message that had an id is uploaded unchanged. */
  lemma DeduplicateAllKeeps(all: seq<Message>, clock: nat -> nat, suffix: nat -> string)
    ensures var s := SortByTime(ScanAll(all, KeyOf).unique, Descending);
      var r := FillIds(s, DrawnId(clock, suffix));
      multiset(s) == multiset(ScanAll(all, KeyOf).unique) && |r| == |s| &&
      (forall i :: 0 <= i < |r| ==> r[i].(id := s[i].id) == s[i]) &&
      (forall i :: 0 <= i < |r| ==> Truthy(s[i].id) ==> r[i] == s[i])
  {
    var u := ScanAll(all, KeyOf).unique;
    SortByTimePermutes(u, Descending);
    FillIdsFacts(SortByTime(u, Descending), clock, suffix);
  }

  lemma SortedFillFacts(u: seq<Message>, clock: nat -> nat, suffix: nat -> string)
    ensures var r := FillIds(SortByTime(u, Descending), DrawnId(clock, suffix));
      Sorted(r, Descending) && |r| == |u| &&
      (forall i :: 0 <= i < |r| ==> Truthy(r[i].id)) &&
      (forall i :: 0 <= i < |r| ==> exists j :: 0 <= j < |u| && r[i].(id := u[j].id) == u[j])
  {
    var sorted := SortByTime(u, Descending);
    var r := FillIds(sorted, DrawnId(clock, suffix));
    SortByTimeSorted(u, Descending);
    SortByTimePermutes(u, Descending);
    FillIdsFacts(sorted, clock, suffix);
    FillKeepsOrder(sorted, Descending, DrawnId(clock, suffix));
    forall i | 0 <= i < |r| ensures exists j :: 0 <= j < |u| && r[i].(id := u[j].id) == u[j] {
      var j := PermutedFrom(u, sorted, i);
      assert r[i].(id := u[j].id) == u[j];
    }
  }

  /** Filling in ids leaves the timestamps, and so the order, as they are. */
  lemma FillKeepsOrder(s: seq<Message>, order: Order, newId: nat -> string)
    requires Sorted(s, order)
    ensures Sorted(FillIds(s, newId), order)
  {
    var r := FillIds(s, newId);
    assert forall i :: 0 <= i < |r| ==> r[i].timestamp == s[i].timestamp;
  }

  lemma PermutedFrom(u: seq<Message>, sorted: seq<Message>, i: nat) returns (j: nat)
    requires multiset(sorted) == multiset(u) && i < |sorted|
    ensures j < |u| && u[j] == sorted[i]
  {
    assert sorted[i] in multiset(u);
    j :| 0 <= j < |u| && u[j] == sorted[i];
  }
}
