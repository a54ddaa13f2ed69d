/** The scraping scheme of the exported HTML backup: the text is split at
    every `<div class="birthday-message">`, the piece before the first marker is
    skipped, and each later piece (a block) is turned into at most one record,
    in order. Building a record may throw (an unparsable time), which aborts
    the whole scrape. How a block becomes a record is the script's own
    `build` function; the block's position is passed along because the clock
    and random id source are read once per block. */
module HtmlBlocks {
  import opened Wrappers
  import opened Strings
  import opened Messages
  import opened Patterns

  const BlockMarker: string := "<div class=\"birthday-message\">"

  /** The four lines a block is searched for; the author line ends in U+1F495. */
  const AuthorPattern := Pattern("<div class=\"message-author\">From: ", " \U{1F495}</div>", false)
  const ContentPattern := Pattern("<div class=\"message-content\">", "</div>", true)
  const ImagePattern := Pattern("<img src=\"", "\" alt=\"Shared memory\">", false)
  const TimePattern := Pattern("<div class=\"message-time\">", "</div>", false)

  /** What one block yields: nothing, a record, or an exception. */
  datatype Outcome = Skip | Emit(record: Message) | Throw

  /** The records of blocks 1 .. n-1 in order, or the position of the first
      block that throws. */
  function ScrapeUpTo(blocks: seq<string>, build: (string, nat) -> Outcome, n: nat): (r: Result<seq<Message>, nat>)
    requires n <= |blocks|
    ensures r.Success? ==> |r.value| < n || n == 0
    ensures r.Failure? ==> 1 <= r.error < n && build(blocks[r.error], r.error).Throw?
  {
    if n <= 1 then Success([])
    else
      match ScrapeUpTo(blocks, build, n - 1)
      case Failure(k) => Failure(k)
      case Success(ms) =>
        match build(blocks[n - 1], n - 1)
        case Skip => Success(ms)
        case Emit(m) => Success(ms + [m])
        case Throw => Failure(n - 1)
  }

  /** The positions 1 .. n-1 of the blocks that yield a record. */
  function KeptBlocks(blocks: seq<string>, build: (string, nat) -> Outcome, n: nat): (ks: seq<nat>)
    requires n <= |blocks|
    ensures forall j :: 0 <= j < |ks| ==> 1 <= ks[j] < n && build(blocks[ks[j]], ks[j]).Emit?
    ensures forall j, j' :: 0 <= j < j' < |ks| ==> ks[j] < ks[j']
    ensures forall k :: 1 <= k < n && build(blocks[k], k).Emit? ==> k in ks
  {
    if n <= 1 then []
    else KeptBlocks(blocks, build, n - 1) + (if build(blocks[n - 1], n - 1).Emit? then [n - 1] else [])
  }

  /** Without an exception, the result lists exactly the records of the blocks
      that yield one, in block order. */
  lemma {:induction false} ScrapeRecords(blocks: seq<string>, build: (string, nat) -> Outcome, n: nat)
    requires n <= |blocks| && ScrapeUpTo(blocks, build, n).Success?
    ensures |ScrapeUpTo(blocks, build, n).value| == |KeptBlocks(blocks, build, n)|
    ensures forall j :: 0 <= j < |KeptBlocks(blocks, build, n)| ==>
      ScrapeUpTo(blocks, build, n).value[j] ==
        build(blocks[KeptBlocks(blocks, build, n)[j]], KeptBlocks(blocks, build, n)[j]).record
  {
    if n > 1 {
      ScrapeRecords(blocks, build, n - 1);
    }
  }

  /** The scrape fails exactly when some block throws, and it reports the first one. */
  lemma {:induction false} ScrapeFails(blocks: seq<string>, build: (string, nat) -> Outcome, n: nat)
    requires n <= |blocks|
    ensures ScrapeUpTo(blocks, build, n).Failure? <==> exists k :: 1 <= k < n && build(blocks[k], k).Throw?
    ensures ScrapeUpTo(blocks, build, n).Failure? ==>
      forall k :: 1 <= k < ScrapeUpTo(blocks, build, n).error ==> !build(blocks[k], k).Throw?
  {
    if n > 1 {
      ScrapeFails(blocks, build, n - 1);
      if build(blocks[n - 1], n - 1).Throw? {
        assert 1 <= n - 1 < n;
      }
    }
  }

  /** A failure stays the result when more blocks are considered. */
  lemma {:induction false} ScrapeFailurePersists(blocks: seq<string>, build: (string, nat) -> Outcome, n: nat, m: nat)
    requires n <= m <= |blocks| && ScrapeUpTo(blocks, build, n).Failure?
    ensures ScrapeUpTo(blocks, build, m) == ScrapeUpTo(blocks, build, n)
    decreases m - n
  {
    if n < m {
      ScrapeFailurePersists(blocks, build, n + 1, m);
    }
  }

  /** The text before the first marker plays no part. */
  lemma {:induction false} ScrapeIgnoresFirst(blocks: seq<string>, build: (string, nat) -> Outcome, n: nat, first: string)
    requires 1 <= |blocks| && n <= |blocks|
    ensures ScrapeUpTo(blocks[0 := first], build, n) == ScrapeUpTo(blocks, build, n)
  {
    if n > 1 {
      ScrapeIgnoresFirst(blocks, build, n - 1, first);
    }
  }

  /** `html.split(marker).forEach(...)`, pushing each record and stopping at the
      first exception. */
  method Scrape(html: string, build: (string, nat) -> Outcome) returns (r: Result<seq<Message>, nat>)
    ensures r == ScrapeUpTo(Split(html, BlockMarker), build, |Split(html, BlockMarker)|)
  {
    var blocks := Split(html, BlockMarker);
    var messages: seq<Message> := [];
    for i := 1 to |blocks|
      invariant ScrapeUpTo(blocks, build, i) == Success(messages)
    {
      match build(blocks[i], i) {
        case Skip =>
        case Emit(m) =>
          messages := messages + [m];
        case Throw =>
          ScrapeFailurePersists(blocks, build, i + 1, |blocks|);
          return Failure(i);
      }
    }
    return Success(messages);
  }
}
