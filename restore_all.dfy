/** The earlier restore script: scrape the HTML backup with a global regular
    expression, append the JSON backup records whose exact name and message
    are not listed yet, and drop a few known test messages. As written, the
    scraping loop can never produce a record (see `ExecYieldsNothing`); the
    scrape over `<div class="birthday-message">` blocks that the loop was
    evidently meant to perform is `ExtractMessagesFromHTML`, and the script
    model uses that one. */
module RestoreAllMessages {
  import opened Wrappers
  import opened Seqs
  import opened Strings
  import opened Patterns
  import opened Messages
  import opened HtmlBlocks
  import RestoreMessages

  /** `messageRegex`: the lazy group stops at the first `</div>`, the one that
      closes the author line. */
  const BlockPattern := Pattern(BlockMarker, "</div>", true)

  /** What one block yields: a record when the author and content captures are
      non-empty strings; `new Date(undefined)` and an unparsable time make
      `toISOString` throw. `imageUrl` is left undefined without an image. */
  function AllBlock(parse: string -> Option<int>, clock: nat -> nat, suffix: nat -> string,
                    block: string, index: nat): Outcome
  {
    var name := Match(block, AuthorPattern);
    var content := Match(block, ContentPattern);
    if !(name.Some? && name.value != [] && content.Some? && content.value != []) then Skip
    else
      var image := Match(block, ImagePattern);
      var time := Match(block, TimePattern);
      var ts := if time.Some? then parse(time.value) else None;
      if ts.None? then Throw
      else Emit(Message(
        name.value,
        content.value,
        Missing,
        if image.Some? then Str(image.value) else Missing,
        Str(NatToString(clock(index)) + suffix(index)),
        ts.value,
        None,
        None))
  }

  function AllBuild(parse: string -> Option<int>, clock: nat -> nat, suffix: nat -> string): (string, nat) -> Outcome {
    (block: string, index: nat) => AllBlock(parse, clock, suffix, block, index)
  }

  /** Prefixes the records gathered so far to the outcome of the rest. */
  function Prepend(ms: seq<Message>, r: Result<seq<Message>, nat>): Result<seq<Message>, nat> {
    match r
    case Success(rest) => Success(ms + rest)
    case Failure(k) => Failure(k)
  }

  /** The outcome of the `exec` loop of the global expression `p` from
      `lastIndex == i`, the `count`-th match onwards. */
  function ExecFrom(html: string, i: nat, p: Pattern, build: (string, nat) -> Outcome, count: nat)
    : Result<seq<Message>, nat>
    requires i <= |html| && p.open != []
    decreases |html| - i
  {
    match FindFrom(html, i, p)
    case None => Success([])
    case Some(f) =>
      MatchEndBound(html, f, p);
      match build(f.capture, count)
      case Throw => Failure(count)
      case Skip => ExecFrom(html, MatchEnd(f, p), p, build, count + 1)
      case Emit(m) => Prepend([m], ExecFrom(html, MatchEnd(f, p), p, build, count + 1))
  }

  /** `extractMessagesFromHTML` as written: `while ((match = messageRegex.exec(html)) !== null)`. */
  method ExtractMessagesAsWritten(html: string, build: (string, nat) -> Outcome) returns (r: Result<seq<Message>, nat>)
    ensures r == ExecFrom(html, 0, BlockPattern, build, 0)
  {
    var last: nat := 0;
    var count: nat := 0;
    var messages: seq<Message> := [];
    PrependNothing(ExecFrom(html, 0, BlockPattern, build, 0));
    while true
      invariant last <= |html|
      invariant ExecFrom(html, 0, BlockPattern, build, 0) == Prepend(messages, ExecFrom(html, last, BlockPattern, build, count))
      decreases |html| - last
    {
      var m := FindFrom(html, last, BlockPattern);
      if m.None? {
        assert messages + [] == messages;
        return Success(messages);
      }
      MatchEndBound(html, m.value, BlockPattern);
      var next := MatchEnd(m.value, BlockPattern);
      match build(m.value.capture, count) {
        case Throw =>
          return Failure(count);
        case Skip =>
        case Emit(x) =>
          PrependTwice(messages, x, ExecFrom(html, next, BlockPattern, build, count + 1));
          messages := messages + [x];
      }
      last := next;
      count := count + 1;
    }
  }

  lemma PrependNothing(r: Result<seq<Message>, nat>)
    ensures Prepend([], r) == r
  {
    if r.Success? {
      assert [] + r.value == r.value;
    }
  }

  lemma PrependTwice(ms: seq<Message>, x: Message, r: Result<seq<Message>, nat>)
    ensures Prepend(ms, Prepend([x], r)) == Prepend(ms + [x], r)
  {
    if r.Success? {
      assert ms + ([x] + r.value) == (ms + [x]) + r.value;
    }
  }

  /** An author match shows a `</div>` in the text. */
  lemma AuthorMatchShowsClose(b: string)
    requires Match(b, AuthorPattern).Some?
    ensures Contains(b, "</div>")
  {
    MatchOccurs(b, AuthorPattern);
    var x := Match(b, AuthorPattern).value;
    assert AuthorPattern.open + x + AuthorPattern.close ==
      (AuthorPattern.open + x + " \U{1F495}") + "</div>";
    ContainsSuffix(b, AuthorPattern.open + x + " \U{1F495}", "</div>");
  }

  /** The text a match of `messageRegex` captures holds no author line. */
  lemma NoAuthorInCapture(html: string, i: nat)
    requires i <= |html| && FindFrom(html, i, BlockPattern).Some?
    ensures Match(FindFrom(html, i, BlockPattern).value.capture, AuthorPattern).None?
  {
    var f := FindFrom(html, i, BlockPattern).value;
    CaptureFree(html[f.start + |BlockPattern.open|..], BlockPattern.close, true);
    if Match(f.capture, AuthorPattern).Some? {
      AuthorMatchShowsClose(f.capture);
      assert false;
    }
  }

  /** As written, the loop yields no record and never throws, whatever the
      backup holds: every capture ends before the author line's `</div>`, so
      `name` is always `undefined`. */
  lemma {:induction false} ExecYieldsNothing(html: string, i: nat, parse: string -> Option<int>,
                                             clock: nat -> nat, suffix: nat -> string, count: nat)
    requires i <= |html|
    ensures ExecFrom(html, i, BlockPattern, AllBuild(parse, clock, suffix), count) == Success([])
    decreases |html| - i
  {
    match FindFrom(html, i, BlockPattern)
    case None =>
    case Some(f) =>
      MatchEndBound(html, f, BlockPattern);
      NoAuthorInCapture(html, i);
      SkipWithoutAuthor(parse, clock, suffix, f.capture, count);
      ExecSkip(html, i, BlockPattern, AllBuild(parse, clock, suffix), count);
      ExecYieldsNothing(html, MatchEnd(f, BlockPattern), parse, clock, suffix, count + 1);
  }

  /** A match whose capture yields nothing passes the loop on to the next match. */
  lemma ExecSkip(html: string, i: nat, p: Pattern, build: (string, nat) -> Outcome, count: nat)
    requires i <= |html| && p.open != [] && FindFrom(html, i, p).Some?
    requires build(FindFrom(html, i, p).value.capture, count) == Skip
    ensures MatchEnd(FindFrom(html, i, p).value, p) <= |html|
    ensures ExecFrom(html, i, p, build, count) ==
      ExecFrom(html, MatchEnd(FindFrom(html, i, p).value, p), p, build, count + 1)
  {
    MatchEndBound(html, FindFrom(html, i, p).value, p);
  }

  lemma SkipWithoutAuthor(parse: string -> Option<int>, clock: nat -> nat, suffix: nat -> string,
                          block: string, index: nat)
    requires Match(block, AuthorPattern).None?
    ensures AllBuild(parse, clock, suffix)(block, index) == Skip
  {
    assert AllBuild(parse, clock, suffix)(block, index) == AllBlock(parse, clock, suffix, block, index);
  }

  /** A backup with one well-formed block, on which the loop as written
      yields nothing while the block scrape yields the record. */
  lemma ExecMissesBlock(html: string, parse: string -> Option<int>, clock: nat -> nat, suffix: nat -> string)
    requires ExtractMessagesFromHTMLSpec(html, parse, clock, suffix).Success?
    requires ExtractMessagesFromHTMLSpec(html, parse, clock, suffix).value != []
    ensures ExecFrom(html, 0, BlockPattern, AllBuild(parse, clock, suffix), 0) != ExtractMessagesFromHTMLSpec(html, parse, clock, suffix)
  {
    ExecYieldsNothing(html, 0, parse, clock, suffix, 0);
  }

  /** The scrape meant: one record per `<div class="birthday-message">` block. */
  function ExtractMessagesFromHTMLSpec(html: string, parse: string -> Option<int>, clock: nat -> nat, suffix: nat -> string)
    : Result<seq<Message>, nat>
  {
    ScrapeUpTo(Split(html, BlockMarker), AllBuild(parse, clock, suffix), |Split(html, BlockMarker)|)
  }

  /** `extractMessagesFromHTML` corrected to split at each block marker. */
  method ExtractMessagesFromHTML(html: string, parse: string -> Option<int>, clock: nat -> nat, suffix: nat -> string)
    returns (r: Result<seq<Message>, nat>)
    ensures r == ExtractMessagesFromHTMLSpec(html, parse, clock, suffix)
  {
    r := Scrape(html, AllBuild(parse, clock, suffix));
  }

  /** The corrected scrape: without an exception, one record per block whose
      author and content captures are non-empty, with those captures as they
      are and `imageUrl` undefined exactly when there is no image tag. */
  lemma ScrapeRecordsAll(html: string, parse: string -> Option<int>, clock: nat -> nat, suffix: nat -> string)
    ensures var blocks := Split(html, BlockMarker);
      var r := ExtractMessagesFromHTMLSpec(html, parse, clock, suffix);
      var kept := KeptBlocks(blocks, AllBuild(parse, clock, suffix), |blocks|);
      r.Success? ==>
        |r.value| == |kept| &&
        (forall j :: 0 <= j < |kept| ==>
          Match(blocks[kept[j]], AuthorPattern) == Some(r.value[j].name) && r.value[j].name != [] &&
          Match(blocks[kept[j]], ContentPattern) == Some(r.value[j].message) && r.value[j].message != [] &&
          (r.value[j].imageUrl == Missing <==> Match(blocks[kept[j]], ImagePattern).None?))
  {
    var blocks := Split(html, BlockMarker);
    var build := AllBuild(parse, clock, suffix);
    if ScrapeUpTo(blocks, build, |blocks|).Success? {
      ScrapeRecords(blocks, build, |blocks|);
    }
  }

  /** The corrected scrape fails exactly when a block with a name and a message
      has no time line or one that does not parse. */
  lemma ScrapeFailsAll(html: string, parse: string -> Option<int>, clock: nat -> nat, suffix: nat -> string)
    ensures var blocks := Split(html, BlockMarker);
      ExtractMessagesFromHTMLSpec(html, parse, clock, suffix).Failure? <==>
        exists k :: 1 <= k < |blocks| &&
          Match(blocks[k], AuthorPattern).Some? && Match(blocks[k], AuthorPattern).value != [] &&
          Match(blocks[k], ContentPattern).Some? && Match(blocks[k], ContentPattern).value != [] &&
          (Match(blocks[k], TimePattern).None? || parse(Match(blocks[k], TimePattern).value).None?)
  {
    var blocks := Split(html, BlockMarker);
    ScrapeFails(blocks, AllBuild(parse, clock, suffix), |blocks|);
  }

  /** The HTML-first merge compares name and message exactly. */
  predicate SameText(a: Message, b: Message) {
    a.name == b.name && a.message == b.message
  }

  /** `allMessages.some(htmlMsg => ...)`. */
  predicate Listed(acc: seq<Message>, m: Message) {
    exists i :: 0 <= i < |acc| && SameText(acc[i], m)
  }

  /** `{...jsonMsg, id: jsonMsg.id || fresh}`. */
  function WithId(m: Message, newId: string): (r: Message)
    ensures r.id == (if Truthy(m.id) then m.id else Str(newId))
    ensures r.(id := m.id) == m
  {
    m.(id := if Truthy(m.id) then m.id else Str(newId))
  }

  /** The list after the `forEach` over the JSON backup, `freshId(j)` being
      the id drawn for the `j`-th JSON record. */
  function MergeHtmlFirst(html: seq<Message>, json: seq<Message>, freshId: nat -> string): seq<Message> {
    if json == [] then html
    else
      var acc := MergeHtmlFirst(html, json[..|json| - 1], freshId);
      var j := |json| - 1;
      if Listed(acc, json[j]) then acc else acc + [WithId(json[j], freshId(j))]
  }

  /** `allMessages = [...htmlMessages]` and the `forEach` appending to it. */
  method MergeBackups(html: seq<Message>, json: seq<Message>, freshId: nat -> string) returns (all: seq<Message>)
    ensures all == MergeHtmlFirst(html, json, freshId)
  {
    all := html;
    for j := 0 to |json|
      invariant all == MergeHtmlFirst(html, json[..j], freshId)
    {
      assert json[..j + 1][..j] == json[..j];
      var isDuplicate := exists i :: 0 <= i < |all| && SameText(all[i], json[j]);
      if !isDuplicate {
        all := all + [WithId(json[j], freshId(j))];
      }
    }
    assert json[..|json|] == json;
  }

  /** The merged list starts with every HTML record, in order. */
  lemma {:induction false} MergeStartsWithHtml(html: seq<Message>, json: seq<Message>, freshId: nat -> string)
    ensures |html| <= |MergeHtmlFirst(html, json, freshId)|
    ensures MergeHtmlFirst(html, json, freshId)[..|html|] == html
  {
    if json != [] {
      MergeStartsWithHtml(html, json[..|json| - 1], freshId);
    }
  }

  /** No appended JSON record repeats the name and message of any record
      before it, HTML or JSON. */
  lemma {:induction false} MergeAppendsUnlisted(html: seq<Message>, json: seq<Message>, freshId: nat -> string)
    ensures |html| <= |MergeHtmlFirst(html, json, freshId)|
    ensures var r := MergeHtmlFirst(html, json, freshId);
      forall i, j :: 0 <= i < j < |r| && |html| <= j ==> !SameText(r[i], r[j])
  {
    MergeStartsWithHtml(html, json, freshId);
    if json != [] {
      MergeAppendsUnlisted(html, json[..|json| - 1], freshId);
    }
  }

  /** Every JSON record's name and message end up in the list. */
  lemma {:induction false} MergeListsAll(html: seq<Message>, json: seq<Message>, freshId: nat -> string)
    ensures forall j :: 0 <= j < |json| ==> Listed(MergeHtmlFirst(html, json, freshId), json[j])
  {
    if json != [] {
      var init := json[..|json| - 1];
      MergeListsAll(html, init, freshId);
      var acc := MergeHtmlFirst(html, init, freshId);
      var r := MergeHtmlFirst(html, json, freshId);
      forall j | 0 <= j < |json| ensures Listed(r, json[j]) {
        if j < |init| {
          var i :| 0 <= i < |acc| && SameText(acc[i], init[j]);
          assert r[i] == acc[i];
        } else if !Listed(acc, json[j]) {
          assert SameText(r[|acc|], json[j]);
        }
      }
    }
  }

  /** Every appended record is a JSON record with its own id when it had one
      and the fresh id drawn for it otherwise. */
  lemma {:induction false} MergeAppendsJson(html: seq<Message>, json: seq<Message>, freshId: nat -> string)
    ensures |html| <= |MergeHtmlFirst(html, json, freshId)|
    ensures var r := MergeHtmlFirst(html, json, freshId);
      forall i :: |html| <= i < |r| ==> exists j :: 0 <= j < |json| && r[i] == WithId(json[j], freshId(j))
  {
    MergeStartsWithHtml(html, json, freshId);
    if json != [] {
      var init := json[..|json| - 1];
      MergeAppendsJson(html, init, freshId);
      MergeStartsWithHtml(html, init, freshId);
      var acc := MergeHtmlFirst(html, init, freshId);
      var r := MergeHtmlFirst(html, json, freshId);
      forall i | |html| <= i < |r| ensures exists j :: 0 <= j < |json| && r[i] == WithId(json[j], freshId(j)) {
        if i < |acc| {
          var j :| 0 <= j < |init| && acc[i] == WithId(init[j], freshId(j));
          assert json[j] == init[j];
        } else {
          assert r[i] == WithId(json[|json| - 1], freshId(|json| - 1));
        }
      }
    }
  }

  /** The `isTest` checks of the `realMessages` filter. */
  predicate IsTest(m: Message) {
    (m.name == "chris" && m.message == "i love her") ||
    m.name == "i love her " ||
    Contains(Lower(m.message), "test message")
  }

  predicate NotTest(m: Message) {
    !IsTest(m)
  }

  /** `allMessages.filter(...)`: every message but the test messages, in order. */
  function RealMessages(all: seq<Message>): (r: seq<Message>)
    ensures forall m :: m in r <==> m in all && !IsTest(m)
    ensures forall m :: multiset(r)[m] == if IsTest(m) then 0 else multiset(all)[m]
    ensures IsSubsequence(r, all)
    ensures (forall i :: 0 <= i < |all| ==> !IsTest(all[i])) ==> r == all
  {
    TestFilterFacts(all);
    TestFilterCount(all);
    Filter(all, NotTest)
  }

  /** The filter keeps every copy of a message that passes and none of one that does not. */
  lemma TestFilterCount(all: seq<Message>)
    ensures forall m :: multiset(Filter(all, NotTest))[m] == if IsTest(m) then 0 else multiset(all)[m]
  {
    forall m ensures multiset(Filter(all, NotTest))[m] == if IsTest(m) then 0 else multiset(all)[m] {
      FilterCount(all, NotTest, m);
    }
  }

  lemma TestFilterFacts(all: seq<Message>)
    ensures forall m :: m in Filter(all, NotTest) <==> m in all && !IsTest(m)
    ensures IsSubsequence(Filter(all, NotTest), all)
    ensures (forall i :: 0 <= i < |all| ==> !IsTest(all[i])) ==> Filter(all, NotTest) == all
  {
    forall m ensures m in Filter(all, NotTest) <==> m in all && !IsTest(m) {
      FilterMembership(all, NotTest, m);
    }
    FilterIsSubsequence(all, NotTest);
    if forall i :: 0 <= i < |all| ==> !IsTest(all[i]) {
      FilterKeepsAll(all, NotTest);
    }
  }

  /** The body `restoreMessage` posts: with the stored image when there is
      one, else with the inline image when there is one, else text only. */
  datatype Post = Post(name: string, message: string, image: Field, imageUrl: Field, hasImage: Option<bool>)

  function PostOf(m: Message): (p: Post)
    ensures p.name == m.name && p.message == m.message
    ensures p.imageUrl != Missing <==> Truthy(m.imageUrl)
    ensures p.image != Missing <==> !Truthy(m.imageUrl) && Truthy(m.image)
    ensures p.hasImage.Some? <==> Truthy(m.imageUrl)
    ensures p.image == Missing || p.imageUrl == Missing
  {
    if Truthy(m.imageUrl) then Post(m.name, m.message, Missing, m.imageUrl, Some(true))
    else if Truthy(m.image) then Post(m.name, m.message, m.image, Missing, None)
    else Post(m.name, m.message, Missing, Missing, None)
  }

  /** `restoreAll`: one request per message, in order, whatever the earlier
      requests came back with; each reply is read as in restore-messages.js. */
  method PostAll(kept: seq<Message>, server: nat -> RestoreMessages.Response)
    returns (requests: seq<Post>, replies: seq<Option<string>>)
    ensures |requests| == |kept| && |replies| == |kept|
    ensures forall i :: 0 <= i < |kept| ==> requests[i] == PostOf(kept[i])
    ensures forall i :: 0 <= i < |kept| ==> replies[i] == RestoreMessages.RestoreMessage(server(i))
  {
    requests, replies := [], [];
    for i := 0 to |kept|
      invariant |requests| == i && |replies| == i
      invariant forall k :: 0 <= k < i ==> requests[k] == PostOf(kept[k])
      invariant forall k :: 0 <= k < i ==> replies[k] == RestoreMessages.RestoreMessage(server(k))
    {
      requests := requests + [PostOf(kept[i])];
      var reply := RestoreMessages.RestoreMessage(server(i));
      replies := replies + [reply];
    }
  }

  /** The script up to the messages to restore: scrape (as corrected), merge,
      filter. */
  method RestoreAll(json: seq<Message>, html: string, parse: string -> Option<int>, clock: nat -> nat,
                    suffix: nat -> string, freshId: nat -> string)
    returns (r: Result<seq<Message>, nat>)
    ensures var scraped := ExtractMessagesFromHTMLSpec(html, parse, clock, suffix);
      (scraped.Failure? ==> r == Failure(scraped.error)) &&
      (scraped.Success? ==> r == Success(RealMessages(MergeHtmlFirst(scraped.value, json, freshId))))
  {
    var scraped := ExtractMessagesFromHTML(html, parse, clock, suffix);
    if scraped.Failure? {
      return Failure(scraped.error);
    }
    var all := MergeBackups(scraped.value, json, freshId);
    return Success(RealMessages(all));
  }
}
