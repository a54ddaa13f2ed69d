/** migrate-to-chunks.js: the message list is cut into slices of ten, and the
    messages are posted one at a time, slice by slice, stopping with an error
    at the first request that is not answered ok. The server is the parameter
    `ok`: whether it accepts the `p`-th request of the run. The backup of the
    production list taken first is file and network work and is left out. */
module MigrateToChunks {
  import opened Wrappers
  import opened Seqs
  import opened Messages

  const ChunkSize: nat := 10

  function Min(a: int, b: int): int {
    if a <= b then a else b
  }

  /** `s.slice(i, i + 10)` for `0 <= i <= |s|`. */
  function Slice(s: seq<Message>, i: nat): (r: seq<Message>)
    requires i <= |s|
  {
    s[i..Min(i + ChunkSize, |s|)]
  }

  /** The `for (let i = 0; ...; i += 10)` loop that fills `messageChunks`. */
  method Chunk(messages: seq<Message>) returns (chunks: seq<seq<Message>>)
    ensures |chunks| == (|messages| + ChunkSize - 1) / ChunkSize
    ensures |messages| <= ChunkSize * |chunks|
    ensures forall c :: 0 <= c < |chunks| ==>
      ChunkSize * c < |messages| && chunks[c] == Slice(messages, ChunkSize * c)
    ensures Flatten(chunks) == messages
    ensures forall c :: 0 <= c < |chunks| ==> 1 <= |chunks[c]| <= ChunkSize
    ensures forall c :: 0 <= c < |chunks| - 1 ==> |chunks[c]| == ChunkSize
  {
    chunks := [];
    var i := 0;
    while i < |messages|
      invariant i == ChunkSize * |chunks| && i <= |messages| + ChunkSize - 1
      invariant forall c :: 0 <= c < |chunks| ==>
        ChunkSize * c < |messages| && chunks[c] == Slice(messages, ChunkSize * c)
      invariant Flatten(chunks) == messages[..Min(i, |messages|)]
      decreases |messages| - i
    {
      var piece := Slice(messages, i);
      FlattenSnoc(chunks, piece);
      SliceContinues(messages, i);
      chunks := chunks + [piece];
      i := i + ChunkSize;
    }
    assert messages[..|messages|] == messages;
    ChunkSizes(messages, chunks);
  }

  /** A slice continues the prefix before it. */
  lemma SliceContinues(messages: seq<Message>, i: nat)
    requires i < |messages|
    ensures messages[..i] + Slice(messages, i) == messages[..Min(i + ChunkSize, |messages|)]
  {
  }

  /** Slices taken every ten positions up to the end number `ceil(n / 10)`, and
      all but the last are full. */
  lemma ChunkSizes(messages: seq<Message>, chunks: seq<seq<Message>>)
    requires |messages| <= ChunkSize * |chunks| <= |messages| + ChunkSize - 1
    requires forall c :: 0 <= c < |chunks| ==>
      ChunkSize * c < |messages| && chunks[c] == Slice(messages, ChunkSize * c)
    ensures |chunks| == (|messages| + ChunkSize - 1) / ChunkSize
    ensures forall c :: 0 <= c < |chunks| ==> 1 <= |chunks[c]| <= ChunkSize
    ensures forall c :: 0 <= c < |chunks| - 1 ==> |chunks[c]| == ChunkSize
  {
    forall c | 0 <= c < |chunks| - 1 ensures |chunks[c]| == ChunkSize {
      assert ChunkSize * (c + 1) < |messages|;
    }
  }

  /** The error thrown: `Failed to upload chunk ${i + 1}` for the first message
      of a chunk, `Failed to upload message ${j} in chunk ${i + 1}` for a later one. */
  datatype UploadError = ChunkFailed(chunk: nat) | MessageFailed(message: nat, chunk: nat)

  /** The error for the message at position `p` of the list: it is message
      `p % 10` of chunk `p / 10`, counted from 1 in the text. */
  function ErrorAt(p: nat): (e: UploadError)
    ensures e.chunk >= 1
    ensures e.MessageFailed? ==> 1 <= e.message < ChunkSize
    ensures ChunkSize * (e.chunk - 1) + (if e.ChunkFailed? then 0 else e.message) == p
  {
    if p % ChunkSize == 0 then ChunkFailed(p / ChunkSize + 1)
    else MessageFailed(p % ChunkSize, p / ChunkSize + 1)
  }

  /** The first of the requests `0 .. n-1` that the server refuses. */
  function FirstRefused(ok: nat -> bool, n: nat): (r: Option<nat>)
    ensures r.Some? ==> r.value < n && !ok(r.value) && forall p :: 0 <= p < r.value ==> ok(p)
    ensures r.None? ==> forall p :: 0 <= p < n ==> ok(p)
  {
    if n == 0 then None
    else
      match FirstRefused(ok, n - 1)
      case Some(p) => Some(p)
      case None => if ok(n - 1) then None else Some(n - 1)
  }

  lemma {:induction false} FirstRefusedIs(ok: nat -> bool, n: nat, p: nat)
    requires p < n && !ok(p) && forall q :: 0 <= q < p ==> ok(q)
    ensures FirstRefused(ok, n) == Some(p)
  {
    if n - 1 > p {
      FirstRefusedIs(ok, n - 1, p);
    } else {
      assert FirstRefused(ok, n - 1).None?;
    }
  }

  /** One pass of the outer loop: `chunk[0]`, then `chunk[1..]`, one request
      each, the first of them being request number `first` of the run; it stops
      at the first refusal and says which element of the chunk it was. */
  method PostChunk(chunk: seq<Message>, first: nat, ok: nat -> bool)
    returns (sent: seq<Message>, refused: Option<nat>)
    requires chunk != []
    ensures refused.None? ==> sent == chunk && forall q :: first <= q < first + |chunk| ==> ok(q)
    ensures refused.Some? ==>
      refused.value < |chunk| && sent == chunk[..refused.value + 1] &&
      !ok(first + refused.value) && forall q :: first <= q < first + refused.value ==> ok(q)
  {
    sent := [chunk[0]];
    if !ok(first) {
      return sent, Some(0);
    }
    for j := 1 to |chunk|
      invariant sent == chunk[..j]
      invariant forall q :: first <= q < first + j ==> ok(q)
    {
      sent := sent + [chunk[j]];
      if !ok(first + j) {
        return sent, Some(j);
      }
    }
    refused := None;
  }

  /** `migrateMessages`: the messages posted in order, one request each, up to
      and including the first refused one, and the error it throws. */
  method MigrateMessages(messages: seq<Message>, ok: nat -> bool)
    returns (posted: seq<Message>, error: Option<UploadError>)
    ensures FirstRefused(ok, |messages|).None? ==> posted == messages && error.None?
    ensures FirstRefused(ok, |messages|).Some? ==>
      posted == messages[..FirstRefused(ok, |messages|).value + 1] &&
      error == Some(ErrorAt(FirstRefused(ok, |messages|).value))
  {
    var chunks := Chunk(messages);
    var n := |messages|;
    posted, error := [], None;
    for i := 0 to |chunks|
      invariant posted == messages[..Min(ChunkSize * i, n)]
      invariant forall q :: 0 <= q < |posted| ==> ok(q)
      invariant error.None?
    {
      posted, error := PostFrom(messages, chunks[i], i, ok, posted);
      if error.Some? {
        return;
      }
    }
    assert messages[..n] == messages;
  }

  /** One pass of the outer loop, over chunk `i`, continuing the messages
      posted so far; on a refusal it reports the error of `migrateMessages`. */
  method PostFrom(messages: seq<Message>, chunk: seq<Message>, i: nat, ok: nat -> bool, posted: seq<Message>)
    returns (now: seq<Message>, error: Option<UploadError>)
    requires ChunkSize * i < |messages| && chunk == Slice(messages, ChunkSize * i)
    requires posted == messages[..ChunkSize * i] && forall q :: 0 <= q < ChunkSize * i ==> ok(q)
    ensures error.None? ==>
      now == messages[..Min(ChunkSize * (i + 1), |messages|)] && forall q :: 0 <= q < |now| ==> ok(q)
    ensures error.Some? ==>
      FirstRefused(ok, |messages|).Some? &&
      now == messages[..FirstRefused(ok, |messages|).value + 1] &&
      error == Some(ErrorAt(FirstRefused(ok, |messages|).value))
  {
    var p := ChunkSize * i;
    assert ChunkSize * (i + 1) == p + ChunkSize;
    var sent, refused := PostChunk(chunk, p, ok);
    ChunkPosted(messages, chunk, p, posted, sent);
    now := posted + sent;
    if refused.Some? {
      Refused(ok, |messages|, p + refused.value, i, refused.value);
      error := Some(if refused.value == 0 then ChunkFailed(i + 1) else MessageFailed(refused.value, i + 1));
    } else {
      error := None;
    }
  }

  /** What a chunk sends continues the posted prefix. */
  lemma ChunkPosted(messages: seq<Message>, chunk: seq<Message>, p: nat, posted: seq<Message>, sent: seq<Message>)
    requires p < |messages| && chunk == Slice(messages, p) && posted == messages[..p]
    requires |sent| <= |chunk| && sent == chunk[..|sent|]
    ensures posted + sent == messages[..p + |sent|]
  {
  }

  /** A refusal at position `p == 10 * i + j` with all earlier requests accepted
      is the first one, and its error is `ErrorAt(p)`. */
  lemma Refused(ok: nat -> bool, n: nat, p: nat, i: nat, j: nat)
    requires p < n && !ok(p) && forall q :: 0 <= q < p ==> ok(q)
    requires p == ChunkSize * i + j && j < ChunkSize
    ensures FirstRefused(ok, n) == Some(p)
    ensures ErrorAt(p) == if j == 0 then ChunkFailed(i + 1) else MessageFailed(j, i + 1)
  {
    FirstRefusedIs(ok, n, p);
  }
}
