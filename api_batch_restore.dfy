/** api/batch-restore.js: the request handler that restores a whole batch.
    It checks the method and the `messages` array, builds one record per
    entry, stores each inline image as a blob of its own (a failure there only
    costs that record its image), and saves the list. The blob store is the
    parameter `put`: the URL it returns for a file name and its contents, or
    `None` when the call throws; `save` is the final `put` of the list.
    `Date.now()`, `Math.random()` and `new Date()` are read per entry and are
    the parameters `clock`, `suffix` and `today`. */
module ApiBatchRestore {
  import opened Wrappers
  import opened Strings
  import opened Messages
  import opened BatchRestore

  /** `req.body.messages`: absent or falsy, some other non-array value, or an array. */
  datatype MessagesField = Absent | NotAnArray | Items(items: seq<BatchEntry>)

  /** `req.method` and `req.body`, which is `None` when there is no body. */
  datatype Request = Request(verb: string, body: Option<MessagesField>)

  datatype ReplyBody = NoContent | ErrorBody(error: string) | Restored(restoredCount: nat, blobUrl: string)

  datatype Reply = Reply(status: int, body: ReplyBody)

  const ListFile: string := "birthday-messages.json"

  /** `Date.now() + Math.random().toString(36).substr(2, 9) + i`. */
  function UniqueId(clock: nat -> nat, suffix: nat -> string, i: nat): (id: string)
    ensures EndsWith(id, NatToString(i))
  {
    NatToString(clock(i)) + suffix(i) + NatToString(i)
  }

  function ImageFileName(id: string): string {
    "image-" + id + ".jpg"
  }

  predicate IsLowerLetter(c: char) {
    'a' <= c <= 'z'
  }

  /** The length of the run of lower-case letters at the start of `s`. */
  function LetterRun(s: string): (k: nat)
    ensures k <= |s|
    ensures forall i :: 0 <= i < k ==> IsLowerLetter(s[i])
    ensures k < |s| ==> !IsLowerLetter(s[k])
  {
    if s != [] && IsLowerLetter(s[0]) then 1 + LetterRun(s[1..]) else 0
  }

  const DataPrefix: string := "data:image/"
  const Base64Mark: string := ";base64,"

  /** `s.replace(/^data:image\/[a-z]+;base64,/, '')`. The letters end at the
      first character that is not one, so the only candidate match is
      `data:image/`, the whole run of letters, and `;base64,`. */
  function StripDataPrefix(s: string): (r: string)
    ensures EndsWith(s, r)
  {
    if StartsWith(s, DataPrefix) then
      var t := s[|DataPrefix|..];
      var k := LetterRun(t);
      if k > 0 && StartsWith(t[k..], Base64Mark) then
        assert s[|s| - |t[k + |Base64Mark|..]|..] == t[k + |Base64Mark|..];
        t[k + |Base64Mark|..]
      else s
    else s
  }

  /** The prefix of a data URL is removed, whatever follows it. */
  lemma StripAddedPrefix(kind: string, data: string)
    requires kind != [] && forall i :: 0 <= i < |kind| ==> IsLowerLetter(kind[i])
    ensures StripDataPrefix(DataPrefix + kind + Base64Mark + data) == data
  {
    var rest := Base64Mark + data;
    var t := kind + rest;
    assert DataPrefix + kind + Base64Mark + data == DataPrefix + t;
    DropPrefix(DataPrefix, t);
    LetterRunOf(kind, rest);
    DropPrefix(kind, rest);
    DropPrefix(Base64Mark, data);
    assert t[|kind|..][|Base64Mark|..] == t[|kind| + |Base64Mark|..];
  }

  lemma DropPrefix(a: string, b: string)
    ensures StartsWith(a + b, a) && (a + b)[|a|..] == b
  {
    assert (a + b)[..|a|] == a;
  }

  lemma {:induction false} LetterRunOf(kind: string, rest: string)
    requires forall i :: 0 <= i < |kind| ==> IsLowerLetter(kind[i])
    requires rest != [] && !IsLowerLetter(rest[0])
    ensures LetterRun(kind + rest) == |kind|
  {
    if kind != [] {
      assert (kind + rest)[1..] == kind[1..] + rest;
      LetterRunOf(kind[1..], rest);
    }
  }

  /** Anything the strip changes has that shape: it only removes such a prefix. */
  lemma StripShape(s: string) returns (kind: string)
    requires StripDataPrefix(s) != s
    ensures kind != [] && forall i :: 0 <= i < |kind| ==> IsLowerLetter(kind[i])
    ensures s == DataPrefix + kind + Base64Mark + StripDataPrefix(s)
  {
    var k := StripChanged(s);
    kind := s[|DataPrefix|..][..k];
    ThreeParts(s, |DataPrefix|, k, |Base64Mark|);
  }

  /** When the strip changes `s`, it removed the prefix, `k` letters and the mark. */
  lemma StripChanged(s: string) returns (k: nat)
    requires StripDataPrefix(s) != s
    ensures |DataPrefix| + k + |Base64Mark| <= |s| && k > 0
    ensures s[..|DataPrefix|] == DataPrefix
    ensures forall i :: 0 <= i < k ==> IsLowerLetter(s[|DataPrefix|..][i])
    ensures s[|DataPrefix| + k..][..|Base64Mark|] == Base64Mark
    ensures StripDataPrefix(s) == s[|DataPrefix| + k + |Base64Mark|..]
  {
    var t := s[|DataPrefix|..];
    k := LetterRun(t);
    assert t[k..] == s[|DataPrefix| + k..];
    assert t[k + |Base64Mark|..] == s[|DataPrefix| + k + |Base64Mark|..];
  }

  lemma ThreeParts(s: string, a: nat, k: nat, b: nat)
    requires a + k + b <= |s|
    ensures s == s[..a] + s[a..][..k] + s[a + k..][..b] + s[a + k + b..]
  {
    assert s[a..][..k] == s[a..a + k];
    assert s[a + k..][..b] == s[a + k..a + k + b];
  }

  /** The URL returned for the entry's image, when it has one and the store
      call succeeds. */
  function StoredUrl(e: BatchEntry, id: string, put: (string, string) -> Option<string>): Option<string> {
    if Truthy(e.image) then put(ImageFileName(id), StripDataPrefix(e.image.text)) else None
  }

  /** `processedMessage` after the image step. */
  function Processed(e: BatchEntry, i: nat, id: string, today: nat -> int, url: Option<string>): Message {
    Message(
      e.name,
      e.message,
      Missing,
      if url.Some? then Str(url.value) else Missing,
      Str(id),
      if e.originalTimestamp.Some? then e.originalTimestamp.value else today(i),
      if url.Some? then Some(true) else None,
      Some(i + 1))
  }

  /** The record pushed for entry `i`. */
  function ProcessOne(e: BatchEntry, i: nat, clock: nat -> nat, suffix: nat -> string, today: nat -> int,
                      put: (string, string) -> Option<string>): Message {
    Processed(e, i, UniqueId(clock, suffix, i), today, StoredUrl(e, UniqueId(clock, suffix, i), put))
  }

  /** The records the loop pushes, one per entry. */
  function ProcessAll(items: seq<BatchEntry>, clock: nat -> nat, suffix: nat -> string, today: nat -> int,
                      put: (string, string) -> Option<string>): (r: seq<Message>)
    ensures |r| == |items|
  {
    seq(|items|, i requires 0 <= i < |items| => ProcessOne(items[i], i, clock, suffix, today, put))
  }

  /** One record per entry, numbered from 1, never with the inline image, with
      an id ending in its position, its original time or the current one, and
      `imageUrl` with `hasImage: true` exactly when the entry has an image and
      storing it succeeded. */
  lemma ProcessAllFacts(items: seq<BatchEntry>, clock: nat -> nat, suffix: nat -> string, today: nat -> int,
                        put: (string, string) -> Option<string>)
    ensures var r := ProcessAll(items, clock, suffix, today, put);
      |r| == |items| &&
      (forall i :: 0 <= i < |r| ==> r[i].image == Missing && r[i].messageIndex == Some(i + 1)) &&
      (forall i :: 0 <= i < |r| ==> r[i].id.Str? && EndsWith(r[i].id.text, NatToString(i))) &&
      (forall i :: 0 <= i < |r| ==>
        r[i].timestamp == (if items[i].originalTimestamp.Some? then items[i].originalTimestamp.value else today(i))) &&
      (forall i :: 0 <= i < |r| ==>
        (r[i].imageUrl.Str? <==> r[i].hasImage == Some(true)) &&
        (r[i].imageUrl.Str? <==>
          Truthy(items[i].image) &&
          put(ImageFileName(UniqueId(clock, suffix, i)), StripDataPrefix(items[i].image.text)).Some?) &&
        (r[i].hasImage == None || r[i].hasImage == Some(true)))
  {
    var r := ProcessAll(items, clock, suffix, today, put);
    forall i | 0 <= i < |r| ensures EndsWith(r[i].id.text, NatToString(i)) {
      assert r[i].id.text == UniqueId(clock, suffix, i);
    }
  }

  /** The file names of the image blobs the loop tries to store, in order. */
  function ImageWrites(items: seq<BatchEntry>, clock: nat -> nat, suffix: nat -> string, n: nat): (w: seq<string>)
    requires n <= |items|
    ensures |w| <= n
  {
    if n == 0 then []
    else
      var earlier := ImageWrites(items, clock, suffix, n - 1);
      if Truthy(items[n - 1].image) then earlier + [ImageFileName(UniqueId(clock, suffix, n - 1))] else earlier
  }

  /** The handler. `writes` lists the blobs it writes, in order. */
  method Handle(req: Request, clock: nat -> nat, suffix: nat -> string, today: nat -> int,
                put: (string, string) -> Option<string>, save: seq<Message> -> Option<string>)
    returns (reply: Reply, writes: seq<string>, saved: Option<seq<Message>>)
    ensures req.verb == "OPTIONS" ==> reply == Reply(200, NoContent) && writes == [] && saved.None?
    ensures req.verb != "OPTIONS" && req.verb != "POST" ==>
      reply == Reply(405, ErrorBody("Method not allowed")) && writes == [] && saved.None?
    ensures req.verb == "POST" && req.body.None? ==>
      reply == Reply(500, ErrorBody("Failed to restore messages batch")) && writes == [] && saved.None?
    ensures req.verb == "POST" && req.body.Some? && !req.body.value.Items? ==>
      reply == Reply(400, ErrorBody("Invalid messages array")) && writes == [] && saved.None?
    ensures req.verb == "POST" && req.body.Some? && req.body.value.Items? ==>
      var items := req.body.value.items;
      var list := ProcessAll(items, clock, suffix, today, put);
      saved == Some(list) &&
      writes == ImageWrites(items, clock, suffix, |items|) + [ListFile] &&
      reply == (if save(list).Some? then Reply(200, Restored(|items|, save(list).value))
                else Reply(500, ErrorBody("Failed to restore messages batch")))
  {
    writes, saved := [], None;
    if req.verb == "OPTIONS" {
      return Reply(200, NoContent), writes, saved;
    }
    if req.verb != "POST" {
      return Reply(405, ErrorBody("Method not allowed")), writes, saved;
    }
    if req.body.None? {
      // destructuring an undefined body throws, and the catch answers 500
      return Reply(500, ErrorBody("Failed to restore messages batch")), writes, saved;
    }
    if !req.body.value.Items? {
      return Reply(400, ErrorBody("Invalid messages array")), writes, saved;
    }
    var processed;
    processed, writes := ProcessMessages(req.body.value.items, clock, suffix, today, put);
    writes := writes + [ListFile];
    saved := Some(processed);
    var blob := save(processed);
    if blob.Some? {
      reply := Reply(200, Restored(|processed|, blob.value));
    } else {
      reply := Reply(500, ErrorBody("Failed to restore messages batch"));
    }
  }

  /** The `for` loop over `messages`: the records it pushes and the image
      blobs it writes. */
  method ProcessMessages(messages: seq<BatchEntry>, clock: nat -> nat, suffix: nat -> string, today: nat -> int,
                         put: (string, string) -> Option<string>)
    returns (processed: seq<Message>, writes: seq<string>)
    ensures processed == ProcessAll(messages, clock, suffix, today, put)
    ensures writes == ImageWrites(messages, clock, suffix, |messages|)
  {
    ghost var spec := ProcessAll(messages, clock, suffix, today, put);
    processed, writes := [], [];
    for i := 0 to |messages|
      invariant processed == spec[..i]
      invariant writes == ImageWrites(messages, clock, suffix, i)
    {
      var processedMessage, written := ProcessEntry(messages[i], i, clock, suffix, today, put);
      assert spec[..i + 1] == spec[..i] + [spec[i]];
      processed := processed + [processedMessage];
      writes := writes + written;
    }
    assert spec[..|messages|] == spec;
  }

  /** One turn of the loop: the record for entry `i` and the blob written for it. */
  method ProcessEntry(msg: BatchEntry, i: nat, clock: nat -> nat, suffix: nat -> string, today: nat -> int,
                      put: (string, string) -> Option<string>)
    returns (processedMessage: Message, written: seq<string>)
    ensures processedMessage == ProcessOne(msg, i, clock, suffix, today, put)
    ensures written == if Truthy(msg.image) then [ImageFileName(UniqueId(clock, suffix, i))] else []
  {
    var uniqueId := UniqueId(clock, suffix, i);
    processedMessage := Processed(msg, i, uniqueId, today, None);
    written := [];
    if Truthy(msg.image) {
      var imageFileName := ImageFileName(uniqueId);
      var base64Data := StripDataPrefix(msg.image.text);
      written := [imageFileName];
      var imageBlob := put(imageFileName, base64Data);
      if imageBlob.Some? {
        processedMessage := processedMessage.(imageUrl := Str(imageBlob.value), hasImage := Some(true));
      }
    }
  }
}
