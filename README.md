# Birthday-message reconciliation, modelled in Dafny

The birthday-message app keeps a list of messages. Each message is a record
`{name, message, image?, imageUrl?, id?, timestamp, hasImage?, messageIndex?}`.
Over time the list was rebuilt several times from backups by a set of
maintenance scripts. This project models the list logic of those scripts
and proves what they promise.

- The production restore script (`restore-with-prod.js`) does several things:
  - It keeps the production messages of the last 24 hours.
  - It scrapes the exported HTML backup.
  - It merges the older messages with the JSON backup and the scraped records.
  - It deduplicates by a normalised signature, with a replacement rule.
  - It drops test and navigation messages, and sorts by time.
- The deduplication script keeps the first message for each key, reports the
  rest, sorts newest first and fills in missing ids.
- An earlier restore script scrapes with a global regular expression, merges
  HTML-first by exact name and message, and filters test messages.
- The batch, direct and API restores number the messages from 1. They choose
  each restored message's time and id, and how its image is handled.
- The chunked migration posts messages one at a time, slice by slice.
- Two small scripts append missing messages and re-sort the list.

Modelling conventions:
- Timestamps are parsed integers (milliseconds since the epoch).
- `name` and `message` are plain strings. The optional properties
  (`image`, `imageUrl`, `id`) are a `Field`: absent, `null` or a string.
  Only a non-empty string is truthy. A numeric id, as the app writes it,
  is represented by its decimal text.
- `Date.now()`, `new Date()` and `Math.random()` are parameters. Each is a
  function of the position of the record being built.
- Date parsing is a parameter `parse` that may fail.
- Network answers and blob-store calls are parameters:
  - `ok`: whether the p-th request is accepted;
  - `server`: the answer to the i-th request;
  - `put` and `save`: what a store call returns, or `None` when it throws.
- Loops that change state are Dafny methods with loop invariants.
- Most methods are proved equal to a specification function, and the
  properties are lemmas about those functions. The slicing, posting and
  request-handling methods and the backup-number search are characterised
  by their properties instead.
- In-place sorts and the id fill work on arrays.

| file | module |
|---|---|
| wrappers.dfy, seqs.dfy, strings.dfy, messages.dfy | `Option`/`Result`; `filter`, subsequences and flattening; the string operations used (`split`, `trim`, `includes`, `replace`, `substring`, decimal printing); the message record |
| patterns.dfy | the regular expressions of the scrapers: literal, lazy group, literal |
| html_blocks.dfy | `html.split('<div class="birthday-message">').forEach(...)` with a per-block builder |
| sorting.dfy | the stable timestamp sort (`Array.prototype.sort`), ascending and descending, in place |
| prod_text.dfy, prod_merge.dfy, prod.dfy | restore-with-prod.js |
| dedup.dfy | deduplicate-all-messages.js |
| restore_all.dfy | restore-all-messages.js |
| restore_messages.dfy | restore-messages.js |
| batch_restore.dfy | batch-restore.js |
| direct_restore.dfy | direct-restore.js |
| migrate.dfy | migrate-to-chunks.js |
| api_batch_restore.dfy | api/batch-restore.js |
| add_missing_messages.dfy, add_missing_message.dfy | add-missing-messages.js, add-missing-message.js |

Behaviour of the code that a reader may not expect (the model follows the
code in each case):
- **URL preference never applies.** The comment at restore-with-prod.js:137
  says to prefer messages with URLs over base64 images, but the branch under
  it (lines 138-140) never fires. The signature already holds the image
  type, so two messages with the same signature agree on whether `imageUrl`
  is set (`UrlPreferenceNeverApplies`). Only the id branch (lines 141-144)
  can replace a filed message.
- **`&nbsp;` is not decoded.** `decodeHTML` does not decode `&nbsp;`
  (`DecodeKeepsNbsp`).
- **A stray `}` is a space.** `normalizeText` turns a literal `}` into a
  space, because of the brace inside its character class (line 110).
- **Normalising is not idempotent.** `normalizeText` changes its own output
  when that output still holds an entity. For example, `&amp;amp;` gives
  `&amp;` and then `&` (`NormalizeTextNotIdempotent`).
- **No rule drops picture captions.** The app saves a picture with the
  caption "Shared a favorite picture! 📸💕" (src/App.jsx:140). The validity
  filter (restore-with-prod.js:169-188) has no rule for that text, so such a
  message is kept.
- **Signatures can collide.** Two different messages can share a signature
  when a normalised name holds a `|` (`SignatureCollision`).

## Model

| member | source | states |
|---|---|---|
| `RestoreWithProdText.DecodeHTML` | restore-with-prod.js:48-60 | the empty text stays empty; decoding never lengthens a text; a text without `&` is unchanged |
| `RestoreWithProdText.DecodeAmpersandFirst` | restore-with-prod.js:51-52 | `&amp;` is decoded first, so `&amp;lt;` becomes `<` |
| `RestoreWithProdText.DecodeKeepsNbsp` | restore-with-prod.js:48-60 | `&nbsp;` is not among the nine entities and passes through |
| `RestoreWithProdText.ReplaceEachShrinks` | restore-with-prod.js:50-59 | a chain of entity replacements never lengthens the text |
| `RestoreWithProdText.ReplaceEachAbsent` | restore-with-prod.js:50-59 | an entity-free text passes the chain unchanged |
| `RestoreWithProdText.NormalizeText` | restore-with-prod.js:107-114 | definition; characterised by `NormalizeTextNormal`, `NormalizeTextFixed` and `NormalizeTextIdempotent` |
| `RestoreWithProdText.Blank` | restore-with-prod.js:110 | exactly the white space, U+200B to U+200D, U+FEFF and `}` become spaces; nothing else changes |
| `RestoreWithProdText.Collapse` | restore-with-prod.js:111 | every run of white space becomes one space, and no two spaces are left adjacent |
| `RestoreWithProdText.NormalizeTextNormal` | restore-with-prod.js:107-114 | the output has no upper-case letter, no special space, no space at either end and never two spaces in a row |
| `RestoreWithProdText.NormalizeTextFixed` | restore-with-prod.js:107-114 | a text in that normal form without `&` is its own normalisation |
| `RestoreWithProdText.NormalizeTextIdempotent` | restore-with-prod.js:107-114 | on texts without `&`, normalising twice equals normalising once |
| `RestoreWithProdText.NormalizeTextNotIdempotent` | restore-with-prod.js:107-114 | with entities it is not: `&amp;amp;` normalises to `&amp;`, which normalises to `&` |
| `RestoreWithProdText.ImageType` | restore-with-prod.js:123 | definition; characterised by `HasImageIffTyped` |
| `RestoreWithProdText.SignatureText` | restore-with-prod.js:125 | definition; characterised by `TemplateEndsWithType`, `TemplateInjective` and `TemplateAmbiguous` |
| `RestoreWithProdText.Signature` | restore-with-prod.js:117-126 | definition; characterised by `SignatureImage` and `SignatureInjective` |
| `RestoreWithProdText.HasImageIffTyped` | restore-with-prod.js:122-123 | `hasImage` holds exactly when `imageType` is not `none`; `url` exactly when `imageUrl` is set; `base64` exactly when only `image` is |
| `RestoreWithProdText.SignatureImage` | restore-with-prod.js:117-126 | equal signatures agree on the image type, on `hasImage` and on whether `imageUrl` is set |
| `RestoreWithProdText.SignatureInjective` | restore-with-prod.js:117-126 | when no normalised name holds a vertical bar, equal signatures mean equal normalised names, messages and image types |
| `RestoreWithProdText.TemplateEndsWithType` | restore-with-prod.js:123-125 | two signature texts that are equal end in the same image type |
| `RestoreWithProdText.TemplateInjective` | restore-with-prod.js:125 | with the same image part and no vertical bar in either name, equal signature texts have equal name and message parts |
| `RestoreWithProdText.TemplateAmbiguous` | restore-with-prod.js:125 | moving a vertical bar between the name and the message part leaves the signature text unchanged |
| `RestoreWithProdText.SignatureCollision` | restore-with-prod.js:125 | the name a, bar, b saying c and the name a saying b, bar, c share a signature |
| `RestoreWithProdMerge.Values` | restore-with-prod.js:153 | `Array.from(messageMap.values())` has one value per listed key, and its values are exactly the messages filed under the listed keys |
| `RestoreWithProdMerge.Signatures` | restore-with-prod.js:130-131 | the signature of every message, in order |
| `RestoreWithProdMerge.MergeConsistent` | restore-with-prod.js:129-149 | after the loop the key order lists each key once, and each filed message has its key as signature |
| `RestoreWithProdMerge.MergeKeys` | restore-with-prod.js:129-149 | the keys are exactly the signatures occurring in the combined list |
| `RestoreWithProdMerge.MergeOrder` | restore-with-prod.js:134-147 | the keys come out in the order of each signature's first occurrence; replacing a value keeps the key's place |
| `RestoreWithProdMerge.SignatureKeepsImageKind` | restore-with-prod.js:123-125 | messages with the same signature agree on whether `imageUrl` is set |
| `RestoreWithProdMerge.UrlPreferenceNeverApplies` | restore-with-prod.js:137-140 | a message and the one filed under its signature agree on `imageUrl`, so the URL preference cannot fire |
| `RestoreWithProdMerge.MergeWinner` | restore-with-prod.js:141-144 | the filed message for a signature is the first one with an `id` among those with that signature, or else the first one |
| `RestoreWithProdMerge.DeduplicatedValues` | restore-with-prod.js:152-153 | the values have pairwise distinct signatures, one per distinct signature, each the winner for its signature |
| `RestoreWithProdMerge.MergeSummary` | restore-with-prod.js:129-153 | together: distinct signatures, every signature of the input present, every value from the input, and each the winner |
| `RestoreWithProdMerge.MergeDistinctKeys` | restore-with-prod.js:129-153 | the values have pairwise distinct signatures |
| `RestoreWithProdMerge.MergeCoversKeys` | restore-with-prod.js:129-153 | every input message's signature is the signature of some value |
| `RestoreWithProdMerge.KeyPosition` | restore-with-prod.js:129-149 | every input message's signature has a place in the key order |
| `RestoreWithProdMerge.MergeWinners` | restore-with-prod.js:133-148 | every value is the winner for its signature |
| `RestoreWithProdMerge.MergeFromInput` | restore-with-prod.js:129-153 | every value is a message of the combined list |
| `RestoreWithProdMerge.MergeEntriesFromInput` | restore-with-prod.js:129-149 | every filed message is a message of the combined list |
| `RestoreWithProdMerge.DeduplicateBySignature` | restore-with-prod.js:129-153 | the imperative loop over a mutable map and key order computes the merge table's values |
| `RestoreWithProd.RecentOlderPartition` | restore-with-prod.js:21-29 | the recent and the older production messages together are exactly the production messages |
| `RestoreWithProd.IsRecent` | restore-with-prod.js:21-29 | definition; characterised by `RecentOlderPartition` and `ReconciledKeepsRecent` |
| `RestoreWithProd.ExtractMessagesFromHTML` | restore-with-prod.js:63-92 | the split-and-build loop equals the block scrape of the HTML text |
| `RestoreWithProd.ProdBlock` | restore-with-prod.js:68-88 | definition; characterised by `ProdScrapeRecords` and `ProdScrapeFails` |
| `RestoreWithProd.ProdScrapeRecords` | restore-with-prod.js:67-89 | without an exception, one record per block after the first having an author and a content match, in block order, with trimmed and decoded name and message, `imageUrl: null` exactly without an `<img>`, and the drawn id |
| `RestoreWithProd.ProdScrapeFails` | restore-with-prod.js:73-79 | the scrape throws exactly when such a block has a time line that does not parse |
| `RestoreWithProd.IsInvalid` | restore-with-prod.js:164-188 | definition; characterised by `RealMessagesSplit` |
| `RestoreWithProd.RealMessages` | restore-with-prod.js:160-196 | the filter never adds messages |
| `RestoreWithProd.RealMessagesSplit` | restore-with-prod.js:152-196 | the filter keeps every recent message and exactly the non-recent messages that pass every validity check |
| `RestoreWithProd.RealMessagesPrefix` | restore-with-prod.js:160-196 | without recent messages the filter is the validity filter |
| `RestoreWithProd.RealMessagesBound` | restore-with-prod.js:160-162 | where the recent part starts matters only inside the list |
| `RestoreWithProd.Reconciled` | restore-with-prod.js:152-201 | definition; characterised by `ReconciledSorted`, `ReconciledContents` and `ReconciledKeepsRecent` |
| `RestoreWithProd.ReconciledSorted` | restore-with-prod.js:201 | the final list is in ascending time order |
| `RestoreWithProd.ReconciledContents` | restore-with-prod.js:152-201 | the final list is a permutation of the valid deduplicated messages plus all recent ones |
| `RestoreWithProd.ReconciledKeepsRecent` | restore-with-prod.js:160-162 | no recent production message is lost, whatever it says |
| `RestoreWithProd.DeduplicatedSignatures` | restore-with-prod.js:129-153 | for the script's signature, the deduplicated list is summarised as by `MergeSummary` |
| `RestoreWithProd.RestoreWithProd` | restore-with-prod.js:20-201 | a scraping exception aborts; otherwise the result is the reconciled list |
| `RestoreWithProd.FirstFreeNumber` | restore-with-prod.js:33-36 | the backup number is the least positive number whose file does not exist (the same loop as lines 223-226) |
| `HtmlBlocks.ScrapeUpTo` | restore-with-prod.js:67-89 | a result has fewer records than blocks; a failure names a block after the first whose build throws |
| `HtmlBlocks.KeptBlocks` | restore-with-prod.js:67-75 | the positions after the first whose block yields a record, increasing, and all of them |
| `HtmlBlocks.ScrapeRecords` | restore-with-prod.js:67-89 | without an exception, the records are those of the blocks that yield one, in block order |
| `HtmlBlocks.ScrapeFails` | restore-with-prod.js:67-89 | the scrape fails exactly when some block throws, and it reports the first such block |
| `HtmlBlocks.ScrapeFailurePersists` | restore-with-prod.js:67-89 | an exception stops the scrape: later blocks do not change the outcome |
| `HtmlBlocks.ScrapeIgnoresFirst` | restore-with-prod.js:68 | the text before the first block marker plays no part |
| `HtmlBlocks.Scrape` | restore-with-prod.js:63-92 | the `forEach` pushing into `messages` computes `ScrapeUpTo` over the split text |
| `Patterns.CaptureUntil` | restore-with-prod.js:70-73 | a lazy capture is followed by the closing text, and without `dotAll` crosses no line end |
| `Patterns.CaptureUntilFirst` | restore-with-prod.js:70-73 | the lazy capture holds no earlier occurrence of the closing text: it stops at the first one |
| `Patterns.CaptureUntilComplete` | restore-with-prod.js:70-73 | the lazy group fails only when no admissible end exists |
| `Patterns.FindFrom` | restore-with-prod.js:70-73 | a match found from position i lies at or after i and its capture is the group's capture there |
| `Patterns.FindFromLeftmost` | restore-with-prod.js:70-73 | the match found is the leftmost one from i, and no match means none exists from i on |
| `Patterns.MatchOccurs` | restore-with-prod.js:70-73 | a match shows opening text, capture and closing text inside the block |
| `Patterns.CaptureAvoidsClose` | restore-with-prod.js:70-73 | a capture never contains its closing text |
| `Patterns.MatchEndBound` | restore-all-messages.js:19 | `exec` resumes inside the text and past the match's opening text |
| `Sorting.SortByTimeSorted` | restore-with-prod.js:201 | the timestamp sort orders the list by the comparator |
| `Sorting.SortByTimePermutes` | restore-with-prod.js:201 | the sort is a permutation |
| `Sorting.SortByTimeStable` | restore-with-prod.js:201 | messages with equal timestamps keep their relative order |
| `Sorting.SortByTimeOfSorted` | restore-with-prod.js:201 | an already ordered list is left as it is |
| `Sorting.SortInPlace` | restore-with-prod.js:201 | the in-place insertion sort on the array computes the stable sort of the old contents |
| `Sorting.SortCopy` | deduplicate-all-messages.js:65 | sorting the script's array yields the stable sort |
| `Strings.Split` | restore-with-prod.js:65 | `split` yields at least one piece, and no piece contains the separator |
| `Strings.SplitJoin` | restore-with-prod.js:65 | joining the pieces with the separator gives back the text |
| `Strings.Trim` | restore-with-prod.js:76-77 | `trim` removes exactly the leading and trailing white space |
| `Strings.ReplaceAll` | restore-with-prod.js:50-59 | definition; characterised by `RestoreWithProdText.ReplaceEachShrinks` and `RestoreWithProdText.ReplaceEachAbsent` |
| `Strings.Lower` | restore-with-prod.js:113 | same length, each character folded by ASCII case mapping, and no upper-case ASCII letter left |
| `Strings.Take` | deduplicate-all-messages.js:44 | `substring(0, n)` is a prefix of length n, or the whole text when shorter |
| `Seqs.Filter` | restore-messages.js:9-23 | `filter` keeps only passing elements, each from the input; characterised by `Seqs.FilterCount` |
| `Seqs.FilterCount` | restore-messages.js:9-23 | `filter` keeps every copy of a passing element and none of a failing one |
| `DeduplicateAllMessages.DuplicateOf` | deduplicate-all-messages.js:41-46 | a report keeps index, name and time; its message is exactly the first 50 characters of the message (all of it when shorter) followed by `...` |
| `DeduplicateAllMessages.Deduplicate` | deduplicate-all-messages.js:29-51 | the `forEach` over `seen`, `uniqueMessages` and `duplicates` computes the scan |
| `DeduplicateAllMessages.ScanSeen` | deduplicate-all-messages.js:40-50 | `seen` is exactly the set of keys of the scanned messages |
| `DeduplicateAllMessages.ScanSeenKept` | deduplicate-all-messages.js:40-50 | `seen` is also exactly the set of keys of the kept messages |
| `DeduplicateAllMessages.ScanDistinct` | deduplicate-all-messages.js:40-50 | the kept messages have pairwise distinct keys |
| `DeduplicateAllMessages.ScanCovers` | deduplicate-all-messages.js:40-50 | every scanned key is the key of a kept message |
| `DeduplicateAllMessages.ScanCounts` | deduplicate-all-messages.js:29-51 | kept plus reported equals the input length |
| `DeduplicateAllMessages.FirstMask` | deduplicate-all-messages.js:40-50 | one flag per message |
| `DeduplicateAllMessages.ScanFirstOccurrences` | deduplicate-all-messages.js:29-51 | the kept messages are exactly the first message of each key, in order, and so a subsequence of the input |
| `DeduplicateAllMessages.ScanDuplicates` | deduplicate-all-messages.js:40-46 | each report names a position whose key occurred earlier and carries that message's data; reports are in position order |
| `DeduplicateAllMessages.ImagesAgreeingOnPrefix` | deduplicate-all-messages.js:31-38 | images that agree on their first 100 characters give the same key |
| `DeduplicateAllMessages.FillIds` | deduplicate-all-messages.js:68-72 | the fill keeps the length |
| `DeduplicateAllMessages.FillIdsFacts` | deduplicate-all-messages.js:68-72 | after the fill every message has a truthy id, messages that had one are unchanged, the others differ only in the id |
| `DeduplicateAllMessages.FillMissingIds` | deduplicate-all-messages.js:68-72 | the in-place assignment loop on the array performs the fill |
| `DeduplicateAllMessages.DeduplicateAll` | deduplicate-all-messages.js:25-72 | scan, newest-first sort and id fill give the dedup result and the duplicate report |
| `DeduplicateAllMessages.DeduplicateAllFacts` | deduplicate-all-messages.js:64-72 | the uploaded list is newest first, as long as the kept list, every message has an id, and each is a kept message save for the id |
| `DeduplicateAllMessages.DeduplicateAllKeeps` | deduplicate-all-messages.js:64-72 | the sort is a permutation of the kept list; in the uploaded list a message that had an id is unchanged, and the others differ from it only in the id |
| `RestoreAllMessages.ExtractMessagesAsWritten` | restore-all-messages.js:10-38 | the `exec` loop as written computes `ExecFrom` from position 0 |
| `RestoreAllMessages.ExecFrom` | restore-all-messages.js:18-35 | definition; characterised by `ExecYieldsNothing` |
| `RestoreAllMessages.AuthorMatchShowsClose` | restore-all-messages.js:13 | an author match needs a `</div>` in the text |
| `RestoreAllMessages.NoAuthorInCapture` | restore-all-messages.js:12-13 | a capture of `messageRegex` never holds an author line |
| `RestoreAllMessages.ExecYieldsNothing` | restore-all-messages.js:19-35 | as written, the loop yields no record and never throws, whatever the HTML |
| `RestoreAllMessages.ExecMissesBlock` | restore-all-messages.js:12-13 | on a backup where the block scrape yields records, the loop as written differs from it |
| `RestoreAllMessages.ExtractMessagesFromHTML` | restore-all-messages.js:10-38 | the corrected scrape: one build per `birthday-message` block |
| `RestoreAllMessages.AllBlock` | restore-all-messages.js:20-34 | definition; characterised by `ScrapeRecordsAll` and `ScrapeFailsAll` |
| `RestoreAllMessages.ScrapeRecordsAll` | restore-all-messages.js:21-34 | a record is pushed only for a block with non-empty name and content captures; `imageUrl` is undefined without an image |
| `RestoreAllMessages.ScrapeFailsAll` | restore-all-messages.js:24-31 | the scrape throws exactly when such a block lacks a parsable time |
| `RestoreAllMessages.WithId` | restore-all-messages.js:55-58 | an appended record keeps its id when truthy, else gets the fresh one, and differs in nothing else |
| `RestoreAllMessages.MergeHtmlFirst` | restore-all-messages.js:45-60 | definition; characterised by `MergeStartsWithHtml`, `MergeAppendsUnlisted`, `MergeListsAll` and `MergeAppendsJson` |
| `RestoreAllMessages.MergeBackups` | restore-all-messages.js:45-60 | the loop appending to the growing `allMessages` computes the HTML-first merge |
| `RestoreAllMessages.MergeStartsWithHtml` | restore-all-messages.js:45 | the merged list starts with every HTML record, in order |
| `RestoreAllMessages.MergeAppendsUnlisted` | restore-all-messages.js:48-59 | no appended record repeats the exact name and message of an earlier record |
| `RestoreAllMessages.MergeListsAll` | restore-all-messages.js:48-60 | every JSON record's name and message end up in the list |
| `RestoreAllMessages.MergeAppendsJson` | restore-all-messages.js:54-58 | every appended record is a JSON record, with its own id when it had one |
| `RestoreAllMessages.RealMessages` | restore-all-messages.js:65-79 | kept exactly when not a test message; every copy of a kept message is kept and none of a test message; order kept; nothing dropped without a test message |
| `RestoreAllMessages.TestFilterFacts` | restore-all-messages.js:65-79 | membership, subsequence and keep-all facts of the filter |
| `RestoreAllMessages.TestFilterCount` | restore-all-messages.js:65-79 | the filter keeps every copy of a message that is not a test message, and none of one that is |
| `RestoreAllMessages.IsTest` | restore-all-messages.js:67-70 | definition; characterised by `RealMessages` |
| `RestoreAllMessages.PostOf` | restore-all-messages.js:88-146 | the post carries `imageUrl` and `hasImage: true` exactly when `imageUrl` is set, the inline image exactly when only `image` is, never both |
| `RestoreAllMessages.PostAll` | restore-all-messages.js:157-174 | one request per message, in order, whatever the earlier requests came back with |
| `RestoreAllMessages.RestoreAll` | restore-all-messages.js:40-79 | a scraping exception aborts; otherwise the filtered HTML-first merge |
| `RestoreMessages.RealMessages` | restore-messages.js:9-23 | kept exactly when not `chris` saying something with `i love her` and not named `i love her `; every copy of a kept message is kept and none of a test message; order kept; empty names kept |
| `RestoreMessages.RealMessagesFacts` | restore-messages.js:9-23 | membership and subsequence facts of the filter |
| `RestoreMessages.RealMessagesCount` | restore-messages.js:9-23 | the filter keeps every copy of a message that is not a test message, and none of one that is |
| `RestoreMessages.IsTestMessage` | restore-messages.js:11-18 | definition; characterised by `RealMessages` |
| `RestoreMessages.RestoreMessage` | restore-messages.js:28-55 | a reply comes back exactly for an ok answer whose body parses; every failure gives `null` |
| `RestoreMessages.RestoreAll` | restore-messages.js:58-72 | each kept message is posted exactly once, in order, carrying on past failures |
| `BatchRestore.RealMessages` | batch-restore.js:7-20 | kept exactly when no rule applies; every copy of a kept message is kept and none of a dropped one; no kept name is empty; order kept; nothing dropped without a test message |
| `BatchRestore.RealMessagesFacts` | batch-restore.js:7-20 | membership, subsequence and keep-all facts of the filter |
| `BatchRestore.RealMessagesCount` | batch-restore.js:7-20 | the filter keeps every copy of a message that passes every rule, and none of one that does not |
| `BatchRestore.IsTestMessage` | batch-restore.js:9-17 | definition; characterised by `RealMessages` and `StricterThanRestoreMessages` |
| `BatchRestore.StricterThanRestoreMessages` | batch-restore.js:15-17 | the filter is that of restore-messages.js followed by dropping empty names |
| `BatchRestore.BatchData` | batch-restore.js:25-32 | one entry per message; entry i copies the name, message and image of message i, carries its id as `originalId` and its time as `originalTimestamp`, and has `messageIndex` i+1 |
| `BatchRestore.Entry` | batch-restore.js:25-32 | definition; characterised by `BatchData` |
| `BatchRestore.BatchIndices` | batch-restore.js:31 | the entries carry exactly the numbers 1 to n, increasing in list order |
| `DirectRestore.RestoredIdInjective` | direct-restore.js:12 | `restored_<now>_<index>` determines both the clock reading and the index |
| `DirectRestore.ProcessedMessages` | direct-restore.js:9-20 | same length; `messageIndex = index + 1`; original time or the current one; `image` and `hasImage: true` exactly when the image is truthy; no `imageUrl` |
| `DirectRestore.Processed` | direct-restore.js:9-20 | definition; characterised by `ProcessedMessages` |
| `DirectRestore.ProcessedIdsDistinct` | direct-restore.js:12 | within one run no two records share an id, whatever the clock reads |
| `DirectRestore.BatchThenDirect` | direct-restore.js:9-20 | on a batch file from batch-restore.js, each record keeps its original time and its image |
| `MigrateToChunks.Chunk` | migrate-to-chunks.js:5-8 | ⌈n/10⌉ slices, slice c being elements 10c up to 10c+10; concatenated they give the input; every slice non-empty with at most 10, all but the last exactly 10 |
| `MigrateToChunks.ErrorAt` | migrate-to-chunks.js:33-48 | the error names the slice, counted from 1, and the message's place in it |
| `MigrateToChunks.FirstRefused` | migrate-to-chunks.js:22-50 | the first refused request, with all earlier ones accepted, or none refused |
| `MigrateToChunks.FirstRefusedIs` | migrate-to-chunks.js:22-50 | a refusal with all earlier requests accepted is the first one |
| `MigrateToChunks.PostChunk` | migrate-to-chunks.js:23-49 | a slice is posted lead message first, one request each, up to and including the first refusal |
| `MigrateToChunks.MigrateMessages` | migrate-to-chunks.js:22-50 | the posted messages are the input in order up to and including the first refused one, and the error names it; without a refusal every message is posted once |
| `MigrateToChunks.PostFrom` | migrate-to-chunks.js:22-50 | one pass of the outer loop continues the posted prefix: without a refusal it ends at the slice's end with every request accepted; with one it ends at the first refused message of the run and reports the script's error for it |
| `MigrateToChunks.ChunkPosted` | migrate-to-chunks.js:22-50 | what a slice sends continues the posted prefix |
| `MigrateToChunks.Refused` | migrate-to-chunks.js:33-48 | a first refusal at place j of slice i is reported as slice i+1, message j |
| `ApiBatchRestore.UniqueId` | api/batch-restore.js:35 | the id ends with the loop index |
| `ApiBatchRestore.LetterRun` | api/batch-restore.js:51 | `[a-z]+` takes the whole run of lower-case letters |
| `ApiBatchRestore.StripDataPrefix` | api/batch-restore.js:51 | the result is a suffix of the input |
| `ApiBatchRestore.StripAddedPrefix` | api/batch-restore.js:51 | `data:image/<letters>;base64,` is removed whatever follows |
| `ApiBatchRestore.StripShape` | api/batch-restore.js:51 | anything the strip changes starts with such a prefix, and removing it gives the result |
| `ApiBatchRestore.ProcessAll` | api/batch-restore.js:31-72 | one record per entry |
| `ApiBatchRestore.ProcessAllFacts` | api/batch-restore.js:35-69 | numbered from 1; never the inline image; id ending in the index; original time or the current one; `imageUrl` with `hasImage: true` exactly when the image is truthy and storing it succeeded |
| `ApiBatchRestore.StoredUrl` | api/batch-restore.js:45-68 | definition; characterised by `ProcessAllFacts` |
| `ApiBatchRestore.Processed` | api/batch-restore.js:36-42 | definition; characterised by `ProcessAllFacts` |
| `ApiBatchRestore.ProcessOne` | api/batch-restore.js:32-69 | definition; characterised by `ProcessAllFacts` |
| `ApiBatchRestore.ProcessEntry` | api/batch-restore.js:32-69 | one turn of the loop computes `ProcessOne` and writes an image blob exactly when the entry has a truthy image |
| `ApiBatchRestore.ImageWrites` | api/batch-restore.js:45-54 | at most one image blob per entry |
| `ApiBatchRestore.ProcessMessages` | api/batch-restore.js:29-72 | the loop pushing into `processedMessages` computes the records and the image blobs written |
| `ApiBatchRestore.Handle` | api/batch-restore.js:4-99 | OPTIONS 200, another method 405, no body 500, no message array 400, all with no write; otherwise the image blobs then the list are written, and 200 with `restoredCount` equal to the input length, or 500 when saving fails |
| `AddMissingMessages.AddMissingMessages` | add-missing-messages.js:26-31 | the pushes and the in-place sort give the stable ascending sort of the list with the two records appended |
| `AddMissingMessages.AddMissingMessagesFacts` | add-missing-messages.js:7-31 | two more messages; old ones unchanged and both records present; ascending and stable; numbers n+1 and n+2; only Haley's record has a (stored) image |
| `AddMissingMessages.Giorgio` | add-missing-messages.js:7-13 | definition; characterised by `AddMissingMessagesFacts` |
| `AddMissingMessages.Haley` | add-missing-messages.js:16-24 | definition; characterised by `AddMissingMessagesFacts` |
| `AddMissingMessage.AddMissingMessage` | add-missing-message.js:15-19 | the push and the in-place sort give the stable ascending sort of the list with the record appended |
| `AddMissingMessage.AddMissingMessageFacts` | add-missing-message.js:7-19 | one more message; old ones unchanged and the record present; ascending and stable; number n+1 |

## Findings

| source | as written | input that shows it | evidently intended | confidence | as-written member | corrected member |
|---|---|---|---|---|---|---|
| restore-all-messages.js:12-13 | `messageRegex` captures lazily up to the first `</div>`, which closes the author line, while `nameRegex` needs that `</div>`; so `name` is always undefined and no record is ever pushed | any backup with a block `<div class="birthday-message"><div class="message-author">From: A 💕</div><div class="message-content">B</div><div class="message-time">T</div>` | one record per `birthday-message` block, as the production restore script's `split` does | not executed | `RestoreAllMessages.ExecYieldsNothing` | `RestoreAllMessages.ExtractMessagesFromHTML` |

Both halves are in `restore_all.dfy`:
- `ExtractMessagesAsWritten` models the loop as written.
- `ExecYieldsNothing` and `ExecMissesBlock` exhibit the discrepancy.
- `RestoreAll` uses the corrected block scrape.

## Left out

- File reading and writing, backup directories, `fetch` calls, blob storage, console output and the `setTimeout` delays. They are I/O. Their results enter as parameters, or not at all where the script ignores them.
- The 24-hour window compares `now - timestamp < 86400000` on integer milliseconds. Fractional hours and `NaN` from unparsable dates are not modelled, because timestamps are parsed integers.
- `new Date(string)`: parsing is the parameter `parse`. A failing parse makes `toISOString` throw. Otherwise the parsed time is used as the record's time. The ISO text is not modelled.
- `toLowerCase` is ASCII only, and `\s` is the JavaScript white-space set without Unicode case folding or normalisation. Full Unicode case mapping is a large table outside this model.
- Strings are sequences of Unicode scalar values, while JavaScript's `substring` counts UTF-16 code units. So `Take(m.message, 50)` differs from `substring(0, 50)` when a character outside the Basic Multilingual Plane, such as an emoji, occurs among the first 50. The same holds for `substring(0, 100)` in the deduplication key.
- `recentMessages.includes(msg)` compares objects by identity. It is modelled by position: the recent messages are the tail of `uniqueMessages`. None of them is an element of `messageMap`.
- `RestoreWithProdMerge.Step`, `RestoreWithProdMerge.MergeAll`, `DeduplicateAllMessages.ScanAll`: the key function is a parameter, and the script's instance is plugged in at the top. This keeps proofs about the loop independent of how a key is computed.
- `DeduplicateAllMessages.KeyOf`: `JSON.stringify` of the key object is taken to be injective on these values. An undefined property is written not at all and distinct from `null`. The key is compared as a structured value, not through its JSON text.
- Ids drawn from `Date.now()` and `Math.random()`: each is the parameter's value at the record's position.
- `RestoreWithProd.ProdBlock`: one reading `clock(index)` serves both the `new Date()` time fallback (restore-with-prod.js:79) and the `Date.now()` in the id (restore-with-prod.js:86). The script makes two separate readings, which can differ by a millisecond.
- Ids: the app writes `id: Date.now()`, a number (src/App.jsx:76 and 138, api/messages.js:66), and the scripts write strings. A numeric id is represented by its decimal text. The two differ in truthiness only for the falsy id 0, whose text `"0"` is truthy; such an id would change the tests at deduplicate-all-messages.js:69, restore-with-prod.js:142 and restore-all-messages.js:57.
- `name` and `message` are taken to be present strings, as the app writes them (src/App.jsx:75-80 and 136-141). A record without `name` would give an undefined key part in deduplicate-all-messages.js:32-33. A record without `message` would make `substring` throw a `TypeError` at deduplicate-all-messages.js:44, and `toLowerCase` throw at restore-all-messages.js:70. Neither is modelled.
- `BatchRestore.BatchEntry`: a falsy `originalTimestamp` is modelled as absent. An empty-string time would be falsy in the script, and it is not representable here.
- `ApiBatchRestore.Handle`: CORS headers, `Buffer.from` decoding, JSON serialisation of the list and error details are left out. A `null` entry in `messages` would make the loop throw (answer 500). That is not modelled, because entries are records.
- `ApiBatchRestore.ProcessAll`: the id is not proved unique. The random part has no fixed length, so `Date.now() + random + i` can repeat.
- `MigrateToChunks.MigrateMessages`: the production backup fetched and written before posting is left out (network and file I/O). The server is the parameter `ok` over the request number.
- `MigrateToChunks.MigrateMessages`: a network error is folded into a refusal. A `fetch` that rejects (migrate-to-chunks.js:25 and 38) throws its own error, while the model reports the script's "Failed to upload chunk …" or "Failed to upload message …" text for that request. Which requests are posted is the same in both cases.
- `RestoreMessages.RestoreAll`, `RestoreAllMessages.PostAll`: the reply bodies are discarded by the scripts. They are returned here only to show that each reply is read the same way whatever happened before.
- `DirectRestore.BatchThenDirect` and `RestoreAllMessages.ExecMissesBlock` follow directly from the other contracts. They are stated for the reader.
