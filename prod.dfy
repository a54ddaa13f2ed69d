/** The production restore script end to end: keep the production messages of
    the last 24 hours as they are, merge the older ones with the JSON backup
    and the records scraped from the HTML backup, deduplicate by signature,
    drop the invalid and test messages (never the recent ones), and sort by
    time. Fetching, reading and writing files are left to the caller: the
    production list, the JSON backup and the HTML text are parameters, and
    which numbered backup files exist is a set of numbers. */
module RestoreWithProd {
  import opened Wrappers
  import opened Seqs
  import opened Strings
  import opened Patterns
  import opened Messages
  import opened Sorting
  import opened HtmlBlocks
  import opened RestoreWithProdText
  import opened RestoreWithProdMerge

  /** 24 hours in milliseconds. */
  const DayMs: int := 86400000

  /** Less than 24 hours old at `now`; `(now - t) / 3600000 < 24` over the
      reals is exactly `now - t < 86400000`. */
  predicate IsRecent(now: int, m: Message) {
    now - m.timestamp < DayMs
  }

  function RecentTest(now: int): Message -> bool {
    m => IsRecent(now, m)
  }

  function OlderTest(now: int): Message -> bool {
    m => !IsRecent(now, m)
  }

  /** The recent and the older production messages together are the
      production messages. */
  lemma RecentOlderPartition(prod: seq<Message>, now: int)
    ensures multiset(Filter(prod, RecentTest(now))) + multiset(Filter(prod, OlderTest(now))) == multiset(prod)
  {
    FilterPartition(prod, RecentTest(now), OlderTest(now));
  }

  /** What one HTML block yields: a record when it has an author line and a
      content section; an exception when its time line does not parse. The
      clock reading and the random suffix for block `index` are `clock(index)`
      and `suffix(index)`. */
  function ProdBlock(parse: string -> Option<int>, clock: nat -> nat, suffix: nat -> string,
                     block: string, index: nat): Outcome
  {
    var name := Match(block, AuthorPattern);
    var content := Match(block, ContentPattern);
    if name.None? || content.None? then Skip
    else
      var image := Match(block, ImagePattern);
      var time := Match(block, TimePattern);
      var ts := if time.Some? then parse(time.value) else Some(clock(index) as int);
      if ts.None? then Throw
      else Emit(Message(
        DecodeHTML(Trim(name.value)),
        DecodeHTML(Trim(content.value)),
        Missing,
        if image.Some? then Str(image.value) else Null,
        Str(NatToString(clock(index)) + suffix(index)),
        ts.value,
        None,
        None))
  }

  function ProdBuild(parse: string -> Option<int>, clock: nat -> nat, suffix: nat -> string): (string, nat) -> Outcome {
    (block: string, index: nat) => ProdBlock(parse, clock, suffix, block, index)
  }

  /** `extractMessagesFromHTML`. */
  method ExtractMessagesFromHTML(html: string, parse: string -> Option<int>, clock: nat -> nat, suffix: nat -> string)
    returns (r: Result<seq<Message>, nat>)
    ensures r == ScrapeUpTo(Split(html, BlockMarker), ProdBuild(parse, clock, suffix), |Split(html, BlockMarker)|)
  {
    r := Scrape(html, ProdBuild(parse, clock, suffix));
  }

  predicate HasAuthorAndContent(block: string) {
    Match(block, AuthorPattern).Some? && Match(block, ContentPattern).Some?
  }

  /** Without an exception the scrape yields one record per block with an
      author line and a content section, in block order, carrying the trimmed
      and decoded captures, `imageUrl: null` exactly when there is no image,
      and an id made of the clock reading and the random suffix. */
  lemma ProdScrapeRecords(html: string, parse: string -> Option<int>, clock: nat -> nat, suffix: nat -> string)
    ensures var blocks := Split(html, BlockMarker);
      var r := ScrapeUpTo(blocks, ProdBuild(parse, clock, suffix), |blocks|);
      var kept := KeptBlocks(blocks, ProdBuild(parse, clock, suffix), |blocks|);
      r.Success? ==>
        |r.value| == |kept| &&
        (forall k :: 1 <= k < |blocks| && HasAuthorAndContent(blocks[k]) ==> k in kept) &&
        (forall j :: 0 <= j < |kept| ==>
          HasAuthorAndContent(blocks[kept[j]]) &&
          r.value[j].name == DecodeHTML(Trim(Match(blocks[kept[j]], AuthorPattern).value)) &&
          r.value[j].message == DecodeHTML(Trim(Match(blocks[kept[j]], ContentPattern).value)) &&
          (r.value[j].imageUrl == Null <==> Match(blocks[kept[j]], ImagePattern).None?) &&
          r.value[j].id == Str(NatToString(clock(kept[j])) + suffix(kept[j])))
  {
    var blocks := Split(html, BlockMarker);
    var build := ProdBuild(parse, clock, suffix);
    var r := ScrapeUpTo(blocks, build, |blocks|);
    if r.Success? {
      ScrapeRecords(blocks, build, |blocks|);
      ScrapeFails(blocks, build, |blocks|);
      var kept := KeptBlocks(blocks, build, |blocks|);
      forall k | 1 <= k < |blocks| && HasAuthorAndContent(blocks[k]) ensures k in kept {
        ProdBlockNotSkipped(parse, clock, suffix, blocks[k], k);
        assert !build(blocks[k], k).Throw?;
      }
      forall j | 0 <= j < |kept|
        ensures HasAuthorAndContent(blocks[kept[j]]) &&
          r.value[j].name == DecodeHTML(Trim(Match(blocks[kept[j]], AuthorPattern).value)) &&
          r.value[j].message == DecodeHTML(Trim(Match(blocks[kept[j]], ContentPattern).value)) &&
          (r.value[j].imageUrl == Null <==> Match(blocks[kept[j]], ImagePattern).None?) &&
          r.value[j].id == Str(NatToString(clock(kept[j])) + suffix(kept[j]))
      {
        ProdBlockEmits(parse, clock, suffix, blocks[kept[j]], kept[j]);
      }
    }
  }

  /** What a record built from one block carries. */
  lemma ProdBlockEmits(parse: string -> Option<int>, clock: nat -> nat, suffix: nat -> string,
                       block: string, index: nat)
    requires ProdBuild(parse, clock, suffix)(block, index).Emit?
    ensures var m := ProdBuild(parse, clock, suffix)(block, index).record;
      HasAuthorAndContent(block) &&
      m.name == DecodeHTML(Trim(Match(block, AuthorPattern).value)) &&
      m.message == DecodeHTML(Trim(Match(block, ContentPattern).value)) &&
      (m.imageUrl == Null <==> Match(block, ImagePattern).None?) &&
      m.id == Str(NatToString(clock(index)) + suffix(index))
  {
    assert ProdBuild(parse, clock, suffix)(block, index) == ProdBlock(parse, clock, suffix, block, index);
  }

  /** A block with an author line and a content section yields a record or throws. */
  lemma ProdBlockNotSkipped(parse: string -> Option<int>, clock: nat -> nat, suffix: nat -> string,
                            block: string, index: nat)
    requires HasAuthorAndContent(block)
    ensures !ProdBuild(parse, clock, suffix)(block, index).Skip?
  {
    assert ProdBuild(parse, clock, suffix)(block, index) == ProdBlock(parse, clock, suffix, block, index);
  }

  /** The scrape fails exactly when a block with an author line and a content
      section has a time line that does not parse. */
  lemma ProdScrapeFails(html: string, parse: string -> Option<int>, clock: nat -> nat, suffix: nat -> string)
    ensures var blocks := Split(html, BlockMarker);
      ScrapeUpTo(blocks, ProdBuild(parse, clock, suffix), |blocks|).Failure? <==>
        exists k :: 1 <= k < |blocks| && HasAuthorAndContent(blocks[k]) &&
          Match(blocks[k], TimePattern).Some? && parse(Match(blocks[k], TimePattern).value).None?
  {
    var blocks := Split(html, BlockMarker);
    ScrapeFails(blocks, ProdBuild(parse, clock, suffix), |blocks|);
  }

  /** The checks of the `realMessages` filter. */
  predicate IsInvalid(m: Message) {
    var msgNorm := NormalizeText(m.message);
    var nameNorm := NormalizeText(m.name);
    msgNorm == [] || nameNorm == [] ||
    msgNorm == "yes" || msgNorm == "no" ||
    nameNorm == "chris" || nameNorm == "i love her" ||
    Contains(msgNorm, "test") || Contains(nameNorm, "debugger") || nameNorm == "i add" ||
    msgNorm == "are you working?" || msgNorm == "images" || msgNorm == "can it be a photo?"
  }

  predicate IsValid(m: Message) {
    !IsInvalid(m)
  }

  /** The `realMessages` filter over `uniqueMessages`, whose elements from
      position `firstRecent` on are the recent production messages and pass
      unchecked. */
  function RealMessages(unique: seq<Message>, firstRecent: nat, valid: Message -> bool): (r: seq<Message>)
    ensures |r| <= |unique|
  {
    if unique == [] then []
    else
      var i := |unique| - 1;
      RealMessages(unique[..i], firstRecent, valid) + (if i >= firstRecent || valid(unique[i]) then [unique[i]] else [])
  }

  /** The filter keeps every recent message and the valid others. */
  lemma {:induction false} RealMessagesSplit(values: seq<Message>, recent: seq<Message>, valid: Message -> bool)
    ensures RealMessages(values + recent, |values|, valid) == Filter(values, valid) + recent
    decreases |recent|
  {
    if recent == [] {
      assert values + recent == values;
      RealMessagesPrefix(values, valid);
    } else {
      var u := values + recent;
      var init := recent[..|recent| - 1];
      assert u[..|u| - 1] == values + init;
      RealMessagesSplit(values, init, valid);
      assert recent == init + [recent[|recent| - 1]];
    }
  }

  lemma {:induction false} RealMessagesPrefix(values: seq<Message>, valid: Message -> bool)
    ensures RealMessages(values, |values|, valid) == Filter(values, valid)
  {
    if values != [] {
      var init := values[..|values| - 1];
      RealMessagesBound(init, |values|, |init|, valid);
      RealMessagesPrefix(init, valid);
    }
  }

  /** Moving the boundary past the end changes nothing. */
  lemma {:induction false} RealMessagesBound(s: seq<Message>, a: nat, b: nat, valid: Message -> bool)
    requires |s| <= a && |s| <= b
    ensures RealMessages(s, a, valid) == RealMessages(s, b, valid)
  {
    if s != [] {
      RealMessagesBound(s[..|s| - 1], a, b, valid);
    }
  }

  /** `allMessages`: the older production messages, the JSON backup, then the
      records scraped from the HTML backup. */
  function Combined(prod: seq<Message>, json: seq<Message>, html: seq<Message>, now: int): seq<Message> {
    Filter(prod, OlderTest(now)) + json + html
  }

  /** `Array.from(messageMap.values())`. */
  function Deduplicated(all: seq<Message>): seq<Message> {
    MergeConsistent(all, Signature);
    Values(MergeAll(all, Signature))
  }

  /** The final sorted list, given the scraped HTML records. */
  function Reconciled(prod: seq<Message>, json: seq<Message>, html: seq<Message>, now: int): seq<Message> {
    var values := Deduplicated(Combined(prod, json, html, now));
    SortByTime(RealMessages(values + Filter(prod, RecentTest(now)), |values|, IsValid), Ascending)
  }

  /** The result is in ascending time order. */
  lemma ReconciledSorted(prod: seq<Message>, json: seq<Message>, html: seq<Message>, now: int)
    ensures Sorted(Reconciled(prod, json, html, now), Ascending)
  {
    var values := Deduplicated(Combined(prod, json, html, now));
    SortByTimeSorted(RealMessages(values + Filter(prod, RecentTest(now)), |values|, IsValid), Ascending);
  }

  /** The result is the valid deduplicated messages and every recent
      production message, nothing more and nothing less. */
  lemma ReconciledContents(prod: seq<Message>, json: seq<Message>, html: seq<Message>, now: int)
    ensures multiset(Reconciled(prod, json, html, now)) ==
      multiset(Filter(Deduplicated(Combined(prod, json, html, now)), IsValid)) + multiset(Filter(prod, RecentTest(now)))
  {
    var values := Deduplicated(Combined(prod, json, html, now));
    var recent := Filter(prod, RecentTest(now));
    RealMessagesSplit(values, recent, IsValid);
    SortByTimePermutes(RealMessages(values + recent, |values|, IsValid), Ascending);
  }

  /** No recent production message is lost, whatever it contains. */
  lemma ReconciledKeepsRecent(prod: seq<Message>, json: seq<Message>, html: seq<Message>, now: int)
    ensures multiset(Filter(prod, RecentTest(now))) <= multiset(Reconciled(prod, json, html, now))
  {
    ReconciledContents(prod, json, html, now);
  }

  /** The deduplicated list has one message per signature occurring in the
      combined list, in order of first occurrence, each a message of the
      combined list, and the first one with an id among its equals when there
      is one. */
  lemma DeduplicatedSignatures(all: seq<Message>)
    ensures Consistent(MergeAll(all, Signature), Signature)
    ensures Deduplicated(all) == Values(MergeAll(all, Signature))
    ensures Summarised(all, Signature, Values(MergeAll(all, Signature)))
  {
    SignatureKeepsImageKind();
    MergeSummary(all, Signature);
  }

  /** The script after fetching and reading: an exception while scraping the
      HTML backup aborts it; otherwise the messages to restore. */
  method RestoreWithProd(prod: seq<Message>, json: seq<Message>, html: string, now: int,
                         parse: string -> Option<int>, clock: nat -> nat, suffix: nat -> string)
    returns (r: Result<seq<Message>, nat>)
    ensures var scraped := ScrapeUpTo(Split(html, BlockMarker), ProdBuild(parse, clock, suffix), |Split(html, BlockMarker)|);
      (scraped.Failure? ==> r == Failure(scraped.error)) &&
      (scraped.Success? ==> r == Success(Reconciled(prod, json, scraped.value, now)))
  {
    var recent := Filter(prod, RecentTest(now));
    var scraped := ExtractMessagesFromHTML(html, parse, clock, suffix);
    if scraped.Failure? {
      return Failure(scraped.error);
    }
    var all := Filter(prod, OlderTest(now)) + json + scraped.value;
    var values := DeduplicateBySignature(all, Signature);
    var kept := RealMessages(values + recent, |values|, IsValid);
    var sorted := SortCopy(kept, Ascending);
    return Success(sorted);
  }

  /** `let n = 1; while (exists(n)) n++;`: the least positive number whose
      file does not exist. */
  method FirstFreeNumber(existing: set<nat>) returns (n: nat)
    ensures n >= 1 && n !in existing
    ensures forall k :: 1 <= k < n ==> k in existing
  {
    n := 1;
    while n in existing
      invariant n >= 1
      invariant forall k :: 1 <= k < n ==> k in existing
      decreases |set k | k in existing && k >= n|
    {
      ghost var before := set k | k in existing && k >= n;
      ghost var after := set k | k in existing && k >= n + 1;
      assert after == before - {n};
      n := n + 1;
    }
  }
}
