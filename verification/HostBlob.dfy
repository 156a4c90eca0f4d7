/**
 How the extension sends large answers to the native host: small ones in one
 message, large ones as a blob cut into base64 chunks of 192 KiB; and the broker
 on the other side that puts the chunks back together in a file.
 */
module HostBlob {
  import opened Prelude
  import opened Numbers
  import opened Octets
  import opened Base64

  const MAX_DIRECT_RESPONSE_BYTES := 768 * 1024
  const CHUNK_BYTES := 192 * 1024
  const SLICE_BYTES := 0x8000
  const MAX_BLOB_SIZE := 256 * 1024 * 1024
  const MAX_BLOB_CHUNKS := 4096

  datatype Post =
    | Response(id: string, body: Bytes)
    | Begin(blobId: string, totalSize: nat, sha256: string)
    | Chunk(blobId: string, index: nat, offset: nat, base64: string)
    | End(blobId: string, totalChunks: nat, sha256: string)
    | ResponseBlob(id: string, blobId: string, totalSize: nat, sha256: string)

  /** The text encoding and the digest both sides use; the protocol works with any faithful encoding. */
  datatype Wire = Wire(encode: Bytes -> string, decode: string -> Option<Bytes>, digest: Bytes -> string)

  ghost predicate Faithful(w: Wire) {
    forall b: Bytes {:trigger w.encode(b)} :: w.decode(w.encode(b)) == Some(b)
  }

  function Rfc4648(digest: Bytes -> string): Wire {
    Wire(b => Encode(b), s => Decode(s), digest)
  }

  lemma Rfc4648IsFaithful(digest: Bytes -> string)
    ensures Faithful(Rfc4648(digest))
  {
    forall b: Bytes
      ensures Rfc4648(digest).decode(Rfc4648(digest).encode(b)) == Some(b)
    {
      DecodeEncode(b);
    }
  }

  function ChunkCount(size: nat): nat {
    (size + CHUNK_BYTES - 1) / CHUNK_BYTES
  }

  lemma ChunkCountIsCeiling(size: nat)
    ensures (ChunkCount(size) - 1) * 196608 < size <= ChunkCount(size) * 196608 || size == ChunkCount(size) == 0
  {
  }

  function ChunkBytes(bytes: Bytes, index: nat): (piece: Bytes)
    requires index < ChunkCount(|bytes|)
    ensures 0 < |piece| <= CHUNK_BYTES
    ensures index < ChunkCount(|bytes|) - 1 ==> |piece| == CHUNK_BYTES
    ensures index == ChunkCount(|bytes|) - 1 ==> index * CHUNK_BYTES + |piece| == |bytes|
  {
    bytes[index * CHUNK_BYTES..Min(|bytes|, index * CHUNK_BYTES + CHUNK_BYTES)]
  }

  function ChunkPost(w: Wire, blobId: string, bytes: Bytes, index: nat): Post
    requires index < ChunkCount(|bytes|)
  {
    Chunk(blobId, index, index * CHUNK_BYTES, w.encode(ChunkBytes(bytes, index)))
  }

  function ChunkPosts(w: Wire, blobId: string, bytes: Bytes): seq<Post> {
    seq(ChunkCount(|bytes|), i requires 0 <= i < ChunkCount(|bytes|) => ChunkPost(w, blobId, bytes, i))
  }

  function BlobPosts(w: Wire, blobId: string, bytes: Bytes, sha256: string): seq<Post> {
    [Begin(blobId, |bytes|, sha256)] + ChunkPosts(w, blobId, bytes) + [End(blobId, ChunkCount(|bytes|), sha256)]
  }

  // ------------------------------------------------------------ the sender

  /** `base64Bytes`: the binary string is built slice by slice, then encoded once. A character stands for its byte. */
  method Base64Bytes(bytes: Bytes) returns (text: string)
    ensures text == Encode(bytes)
  {
    var binary: Bytes := [];
    var index := 0;
    while index < |bytes|
      invariant binary == bytes[..Min(index, |bytes|)]
    {
      var slice := bytes[index..Min(index + SLICE_BYTES, |bytes|)];
      binary := binary + slice;
      index := index + SLICE_BYTES;
    }
    assert binary == bytes;
    text := Encode(binary);
  }

  method CopyCodes(binary: Bytes) returns (bytes: Bytes)
    ensures bytes == binary
  {
    bytes := [];
    for index := 0 to |binary|
      invariant bytes == binary[..index]
    {
      bytes := bytes + [binary[index]];
    }
  }

  /** `bytesFromBase64`: `None` where `atob` throws. */
  method BytesFromBase64(base64: string) returns (bytes: Option<Bytes>)
    ensures bytes == Atob(base64)
  {
    var binary := Atob(base64);
    if binary.None? {
      return None;
    }
    var copy := CopyCodes(binary.value);
    bytes := Some(copy);
  }

  method PostHostBlob(blobId: string, bytes: Bytes, sha256: string, ghost digest: Bytes -> string) returns (posts: seq<Post>)
    ensures posts == BlobPosts(Rfc4648(digest), blobId, bytes, sha256)
  {
    ghost var w := Rfc4648(digest);
    var totalChunks := ChunkCount(|bytes|);
    posts := [Begin(blobId, |bytes|, sha256)];
    for index := 0 to totalChunks
      invariant |posts| == index + 1 && posts[0] == Begin(blobId, |bytes|, sha256)
      invariant forall i :: 0 <= i < index ==> posts[i + 1] == ChunkPost(w, blobId, bytes, i)
    {
      var offset := index * CHUNK_BYTES;
      var chunk := bytes[offset..Min(|bytes|, offset + CHUNK_BYTES)];
      var base64 := Base64Bytes(chunk);
      assert w.encode(chunk) == base64;
      posts := posts + [Chunk(blobId, index, offset, base64)];
    }
    assert posts == [Begin(blobId, |bytes|, sha256)] + ChunkPosts(w, blobId, bytes);
    posts := posts + [End(blobId, totalChunks, sha256)];
  }

  /** `encoded` is the UTF-8 text of the response; the sha256 is of those bytes. */
  method PostHostResponse(id: string, encoded: Bytes, blobId: string, digest: Bytes -> string) returns (posts: seq<Post>)
    ensures posts == if |encoded| <= 786432 then [Response(id, encoded)]
                     else BlobPosts(Rfc4648(digest), blobId, encoded, digest(encoded))
                          + [ResponseBlob(id, blobId, |encoded|, digest(encoded))]
  {
    if |encoded| <= MAX_DIRECT_RESPONSE_BYTES {
      return [Response(id, encoded)];
    }
    var sha256 := digest(encoded);
    posts := PostHostBlob(blobId, encoded, sha256, digest);
    posts := posts + [ResponseBlob(id, blobId, |encoded|, sha256)];
  }

  function JoinedText(posts: seq<Post>): string {
    if posts == [] then ""
    else (if posts[0].Chunk? then posts[0].base64 else "") + JoinedText(posts[1..])
  }

  ghost predicate CutsAtThree(w: Wire) {
    && w.encode([]) == ""
    && forall a: Bytes, b: Bytes {:trigger w.encode(a + b)} :: |a| % 3 == 0 ==> w.encode(a + b) == w.encode(a) + w.encode(b)
  }

  lemma PrefixGrows(bytes: Bytes, index: nat)
    requires index < ChunkCount(|bytes|)
    ensures index * CHUNK_BYTES <= |bytes| && index * CHUNK_BYTES % 3 == 0
    ensures bytes[..Min(|bytes|, (index + 1) * CHUNK_BYTES)]
         == bytes[..Min(|bytes|, index * CHUNK_BYTES)] + ChunkBytes(bytes, index)
  {
  }

  lemma {:induction false} JoinedTextOfPrefix(w: Wire, blobId: string, bytes: Bytes, k: nat)
    requires k <= ChunkCount(|bytes|) && CutsAtThree(w)
    ensures JoinedText(ChunkPosts(w, blobId, bytes)[..k]) == w.encode(bytes[..Min(|bytes|, k * CHUNK_BYTES)])
  {
    if k > 0 {
      var posts := ChunkPosts(w, blobId, bytes);
      JoinedTextOfPrefix(w, blobId, bytes, k - 1);
      var before, last := posts[..k - 1], posts[k - 1];
      assert posts[..k] == before + [last];
      JoinedTextAppends(before, last);
      PrefixGrows(bytes, k - 1);
    }
  }

  lemma {:induction false} JoinedTextAppends(posts: seq<Post>, last: Post)
    requires last.Chunk?
    ensures JoinedText(posts + [last]) == JoinedText(posts) + last.base64
  {
    var all := posts + [last];
    if posts == [] {
      assert all[0] == last && all[1..] == [];
      assert JoinedText(all) == last.base64 + JoinedText([]);
      assert JoinedText(posts) + last.base64 == last.base64 + [];
    } else {
      var head := if posts[0].Chunk? then posts[0].base64 else "";
      var tail := JoinedText(posts[1..]);
      assert all[0] == posts[0] && all[1..] == posts[1..] + [last];
      JoinedTextAppends(posts[1..], last);
      assert head + (tail + last.base64) == (head + tail) + last.base64;
    }
  }

  /** The chunk size is a multiple of three, so the chunk texts join to the base64 text of the whole. */
  lemma ChunkTextsJoin(digest: Bytes -> string, blobId: string, bytes: Bytes)
    ensures JoinedText(ChunkPosts(Rfc4648(digest), blobId, bytes)) == Encode(bytes)
  {
    var w := Rfc4648(digest);
    assert CutsAtThree(w) by {
      forall a: Bytes, b: Bytes | |a| % 3 == 0
        ensures w.encode(a + b) == w.encode(a) + w.encode(b)
      {
        EncodeConcatenates(a, b);
      }
    }
    ChunkCountIsCeiling(|bytes|);
    JoinedTextOfPrefix(w, blobId, bytes, ChunkCount(|bytes|));
    assert ChunkPosts(w, blobId, bytes)[..ChunkCount(|bytes|)] == ChunkPosts(w, blobId, bytes);
    assert bytes[..|bytes|] == bytes;
  }

  // ---------------------------------------------------------- the receiver

  datatype Assembly = Assembly(sha256: string, received: nat, chunks: set<nat>, ranges: seq<(nat, nat)>, file: Bytes)

  /** The broker's entry for one blob id. Messages it refuses leave the entry alone. */
  datatype Slot = Unknown | Assembling(assembly: Assembly) | Completed(bytes: Bytes, sha256: string)

  predicate Overlaps(ranges: seq<(nat, nat)>, start: nat, end: nat) {
    exists i :: 0 <= i < |ranges| && start < ranges[i].1 && end > ranges[i].0
  }

  function Overwrite(file: Bytes, offset: nat, data: Bytes): (r: Bytes)
    requires offset + |data| <= |file|
    ensures |r| == |file|
    ensures forall p :: 0 <= p < |file| ==> r[p] == if offset <= p < offset + |data| then data[p - offset] else file[p]
  {
    file[..offset] + data + file[offset + |data|..]
  }

  function Receive(w: Wire, blobId: string, slot: Slot, post: Post): Slot {
    match post
    case Begin(id, totalSize, sha256) =>
      if id != blobId || totalSize == 0 || totalSize > MAX_BLOB_SIZE then slot
      else Assembling(Assembly(sha256, 0, {}, [], seq(totalSize, _ => 0)))
    case Chunk(id, index, offset, base64) =>
      if id != blobId || !slot.Assembling? then slot
      else
        var a := slot.assembly;
        var data := w.decode(base64);
        if index >= MAX_BLOB_CHUNKS || index in a.chunks || data.None? || data.value == [] then slot
        else if offset + |data.value| > |a.file| || Overlaps(a.ranges, offset, offset + |data.value|) then slot
        else
          Assembling(a.(file := Overwrite(a.file, offset, data.value), chunks := a.chunks + {index},
                        ranges := a.ranges + [(offset, offset + |data.value|)],
                        received := a.received + |data.value|))
    case End(id, totalChunks, sha256) =>
      if id != blobId || !slot.Assembling? then slot
      else
        var a := slot.assembly;
        if totalChunks != |a.chunks| || sha256 != a.sha256 || a.received != |a.file| || w.digest(a.file) != a.sha256 then slot
        else Completed(a.file, a.sha256)
    case _ => slot
  }

  // ------------------------------------------ the receiver's answers, told apart

  predicate NoneEmpty(ranges: seq<(nat, nat)>) {
    forall i :: 0 <= i < |ranges| ==> ranges[i].0 < ranges[i].1
  }

  predicate Covers(range: (nat, nat), p: nat) {
    range.0 <= p < range.1
  }

  /** Ranges overlap if they have a position in common. */
  lemma OverlapMeans(ranges: seq<(nat, nat)>, start: nat, end: nat)
    requires NoneEmpty(ranges) && start < end
    ensures Overlaps(ranges, start, end) <==>
              exists i: nat, p: nat :: i < |ranges| && Covers(ranges[i], p) && start <= p < end
  {
    if i: nat :| i < |ranges| && start < ranges[i].1 && end > ranges[i].0 {
      var p: nat := if start >= ranges[i].0 then start else ranges[i].0;
      assert Covers(ranges[i], p) && start <= p < end;
    }
  }

  /** Only messages about the blob itself touch its entry, and only a begin of a size in bounds starts one anew. */
  lemma BeginMeans(w: Wire, blobId: string, slot: Slot, id: string, totalSize: nat, sha256: string)
    ensures var next := Receive(w, blobId, slot, Begin(id, totalSize, sha256));
            if id == blobId && 1 <= totalSize <= 268435456
            then next.Assembling? && next.assembly.sha256 == sha256 && |next.assembly.file| == totalSize
                 && next.assembly.received == 0 && next.assembly.chunks == {} && next.assembly.ranges == []
                 && forall p :: 0 <= p < totalSize ==> next.assembly.file[p] == 0
            else next == slot
  {
  }

  /**
   A chunk is taken if and only if its number is below 4096 and new, its text decodes to
   some bytes, and these lie inside the blob and on no position written before; then
   exactly they are written, and counted.
   */
  lemma ChunkMeans(w: Wire, blobId: string, a: Assembly, id: string, index: nat, offset: nat, base64: string)
    requires NoneEmpty(a.ranges)
    ensures var next := Receive(w, blobId, Assembling(a), Chunk(id, index, offset, base64));
            var data := if w.decode(base64).Some? then w.decode(base64).value else [];
            var taken := && id == blobId && index < 4096 && index !in a.chunks && |data| > 0 && offset + |data| <= |a.file|
                         && forall i: nat, p: nat :: i < |a.ranges| && offset <= p < offset + |data| ==> !Covers(a.ranges[i], p);
            && next.Assembling?
            && (!taken ==> next.assembly == a)
            && (taken ==>
                  && |next.assembly.file| == |a.file| && next.assembly.sha256 == a.sha256
                  && (forall p :: 0 <= p < |a.file| ==>
                        next.assembly.file[p] == if offset <= p < offset + |data| then data[p - offset] else a.file[p])
                  && next.assembly.chunks == a.chunks + {index} && next.assembly.received == a.received + |data|
                  && next.assembly.ranges == a.ranges + [(offset, offset + |data|)] && NoneEmpty(next.assembly.ranges))
  {
    var data := w.decode(base64);
    if data.Some? && data.value != [] {
      OverlapMeans(a.ranges, offset, offset + |data.value|);
    }
  }

  /** An end completes the blob if and only if it counts the chunks right, every byte has come, and both digests are the file's. */
  lemma EndMeans(w: Wire, blobId: string, a: Assembly, id: string, totalChunks: nat, sha256: string)
    ensures Receive(w, blobId, Assembling(a), End(id, totalChunks, sha256))
         == if id == blobId && totalChunks == |a.chunks| && a.received == |a.file| && sha256 == a.sha256 == w.digest(a.file)
            then Completed(a.file, sha256) else Assembling(a)
  {
  }

  function ReceiveAll(w: Wire, blobId: string, slot: Slot, posts: seq<Post>): Slot
    decreases |posts|
  {
    if posts == [] then slot else ReceiveAll(w, blobId, Receive(w, blobId, slot, posts[0]), posts[1..])
  }

  lemma {:induction false} ReceiveInOrder(w: Wire, blobId: string, slot: Slot, a: seq<Post>, b: seq<Post>)
    ensures ReceiveAll(w, blobId, slot, a + b) == ReceiveAll(w, blobId, ReceiveAll(w, blobId, slot, a), b)
    decreases |a|
  {
    if a == [] {
      assert a + b == b;
    } else {
      assert (a + b)[1..] == a[1..] + b;
      ReceiveInOrder(w, blobId, Receive(w, blobId, slot, a[0]), a[1..], b);
    }
  }

  ghost predicate RangesOfChunks(a: Assembly, size: nat) {
    forall k :: 0 <= k < |a.ranges| ==>
      a.ranges[k].0 / CHUNK_BYTES in a.chunks && a.ranges[k].0 % CHUNK_BYTES == 0
      && a.ranges[k].1 == Min(size, a.ranges[k].0 + CHUNK_BYTES)
  }

  ghost predicate HoldsChunks(file: Bytes, bytes: Bytes, chunks: set<nat>) {
    |file| == |bytes| && forall p :: 0 <= p < |bytes| && p / CHUNK_BYTES in chunks ==> file[p] == bytes[p]
  }

  /** How many bytes the chunks amount to: only the last one is short. */
  function BytesIn(count: nat, last: bool, size: nat): int {
    count * CHUNK_BYTES - if last then ChunkCount(size) * CHUNK_BYTES - size else 0
  }

  /** Some of the sender's chunks have arrived, and nothing else. */
  ghost predicate PartOf(a: Assembly, bytes: Bytes, sha256: string) {
    && a.sha256 == sha256
    && (forall i :: i in a.chunks ==> i < ChunkCount(|bytes|))
    && RangesOfChunks(a, |bytes|)
    && a.received == BytesIn(|a.chunks|, ChunkCount(|bytes|) > 0 && ChunkCount(|bytes|) - 1 in a.chunks, |bytes|)
    && HoldsChunks(a.file, bytes, a.chunks)
  }

  /** The entry after one more chunk is written. */
  function WithChunk(a: Assembly, bytes: Bytes, index: nat): Assembly
    requires index < ChunkCount(|bytes|) && |a.file| == |bytes|
  {
    var piece := ChunkBytes(bytes, index);
    var offset := index * CHUNK_BYTES;
    a.(file := Overwrite(a.file, offset, piece), chunks := a.chunks + {index},
       ranges := a.ranges + [(offset, offset + |piece|)], received := a.received + |piece|)
  }

  lemma ChunkFindsRoom(a: Assembly, size: nat, index: nat)
    requires RangesOfChunks(a, size) && index < ChunkCount(size) && index !in a.chunks
    ensures !Overlaps(a.ranges, index * CHUNK_BYTES, Min(size, index * CHUNK_BYTES + CHUNK_BYTES))
  {
    forall k | 0 <= k < |a.ranges|
      ensures !(index * CHUNK_BYTES < a.ranges[k].1 && Min(size, index * CHUNK_BYTES + CHUNK_BYTES) > a.ranges[k].0)
    {
      assert a.ranges[k].0 / CHUNK_BYTES != index;
    }
  }

  lemma ChunkIsAccepted(w: Wire, blobId: string, a: Assembly, bytes: Bytes, index: nat)
    requires Faithful(w) && RangesOfChunks(a, |bytes|) && |a.file| == |bytes| <= MAX_BLOB_SIZE
    requires index < ChunkCount(|bytes|) && index !in a.chunks
    ensures Receive(w, blobId, Assembling(a), ChunkPost(w, blobId, bytes, index)) == Assembling(WithChunk(a, bytes, index))
  {
    var piece := ChunkBytes(bytes, index);
    assert w.decode(w.encode(piece)) == Some(piece);
    assert index < MAX_BLOB_CHUNKS;
    assert index * CHUNK_BYTES + |piece| == Min(|bytes|, index * CHUNK_BYTES + CHUNK_BYTES);
    ChunkFindsRoom(a, |bytes|, index);
  }

  lemma ChunkFillsItsPlace(file: Bytes, bytes: Bytes, index: nat, p: nat)
    requires index < ChunkCount(|bytes|) && |file| == |bytes| && p < |bytes|
    ensures var piece := ChunkBytes(bytes, index);
            Overwrite(file, index * CHUNK_BYTES, piece)[p] == if p / CHUNK_BYTES == index then bytes[p] else file[p]
  {
    var piece := ChunkBytes(bytes, index);
    var offset := index * CHUNK_BYTES;
    if p / CHUNK_BYTES == index {
      assert offset <= p < offset + |piece|;
      assert piece[p - offset] == bytes[p];
    } else {
      assert !(offset <= p < offset + CHUNK_BYTES);
    }
  }

  lemma ChunkCounts(a: Assembly, bytes: Bytes, index: nat)
    requires a.received == BytesIn(|a.chunks|, ChunkCount(|bytes|) - 1 in a.chunks, |bytes|) && |a.file| == |bytes|
    requires index < ChunkCount(|bytes|) && index !in a.chunks
    ensures var next := WithChunk(a, bytes, index);
            next.received == BytesIn(|next.chunks|, ChunkCount(|bytes|) - 1 in next.chunks, |bytes|)
  {
  }

  lemma ChunkArrives(a: Assembly, bytes: Bytes, sha256: string, index: nat)
    requires PartOf(a, bytes, sha256)
    requires index < ChunkCount(|bytes|) && index !in a.chunks
    ensures PartOf(WithChunk(a, bytes, index), bytes, sha256)
  {
    var next := WithChunk(a, bytes, index);
    ChunkCounts(a, bytes, index);
    assert RangesOfChunks(next, |bytes|);
    forall p | 0 <= p < |bytes| && p / CHUNK_BYTES in next.chunks
      ensures next.file[p] == bytes[p]
    {
      ChunkFillsItsPlace(a.file, bytes, index, p);
    }
  }

  /** Chunk messages in the given order of indices. */
  function Shuffled(w: Wire, blobId: string, bytes: Bytes, order: seq<nat>): seq<Post>
    requires forall k :: 0 <= k < |order| ==> order[k] < ChunkCount(|bytes|)
  {
    seq(|order|, k requires 0 <= k < |order| => ChunkPost(w, blobId, bytes, order[k]))
  }

  lemma {:induction false} ChunksArrive(w: Wire, blobId: string, a: Assembly, bytes: Bytes, sha256: string, order: seq<nat>)
    requires Faithful(w) && PartOf(a, bytes, sha256) && |bytes| <= MAX_BLOB_SIZE
    requires forall k :: 0 <= k < |order| ==> order[k] < ChunkCount(|bytes|) && order[k] !in a.chunks
    requires forall j, k :: 0 <= j < k < |order| ==> order[j] != order[k]
    ensures var end := ReceiveAll(w, blobId, Assembling(a), Shuffled(w, blobId, bytes, order));
            end.Assembling? && PartOf(end.assembly, bytes, sha256) && |end.assembly.chunks| == |a.chunks| + |order|
    decreases |order|
  {
    if order != [] {
      ChunkIsAccepted(w, blobId, a, bytes, order[0]);
      ChunkArrives(a, bytes, sha256, order[0]);
      assert Shuffled(w, blobId, bytes, order)[1..] == Shuffled(w, blobId, bytes, order[1..]);
      var next := WithChunk(a, bytes, order[0]);
      forall k | 0 <= k < |order[1..]|
        ensures order[1..][k] < ChunkCount(|bytes|) && order[1..][k] !in next.chunks
      {
        assert order[1..][k] == order[k + 1];
      }
      ChunksArrive(w, blobId, next, bytes, sha256, order[1..]);
    }
  }

  lemma {:induction false} FullSet(s: set<nat>, n: nat)
    requires |s| == n && forall i :: i in s ==> i < n
    ensures forall i :: 0 <= i < n ==> i in s
  {
    if n > 0 {
      if n - 1 in s {
        FullSet(s - {n - 1}, n - 1);
      } else {
        TooMany(s, n - 1);
      }
    }
  }

  lemma {:induction false} TooMany(s: set<nat>, n: nat)
    requires forall i :: i in s ==> i < n
    ensures |s| <= n
  {
    if n == 0 {
      assert s == {};
    } else {
      TooMany(s - {n - 1}, n - 1);
    }
  }

  lemma AllArrivedIsWhole(w: Wire, blobId: string, a: Assembly, bytes: Bytes)
    requires PartOf(a, bytes, w.digest(bytes)) && |a.chunks| == ChunkCount(|bytes|) && bytes != []
    ensures Receive(w, blobId, Assembling(a), End(blobId, ChunkCount(|bytes|), w.digest(bytes)))
         == Completed(bytes, w.digest(bytes))
  {
    FullSet(a.chunks, ChunkCount(|bytes|));
    ChunkCountIsCeiling(|bytes|);
    forall p | 0 <= p < |bytes|
      ensures a.file[p] == bytes[p]
    {
      assert p / CHUNK_BYTES in a.chunks;
    }
    assert a.file == bytes;
  }

  /**
   The transfer. In whatever order the chunk messages arrive between begin and
   end, the broker publishes exactly the bytes that were sent, for every size it
   admits; an empty blob and one above its limit are never published.
   */
  lemma BlobArrives(w: Wire, blobId: string, bytes: Bytes, order: seq<nat>)
    requires Faithful(w) && |order| == ChunkCount(|bytes|)
    requires forall k :: 0 <= k < |order| ==> order[k] < ChunkCount(|bytes|)
    requires forall j, k :: 0 <= j < k < |order| ==> order[j] != order[k]
    ensures var sha256 := w.digest(bytes);
            var posts := [Begin(blobId, |bytes|, sha256)] + (Shuffled(w, blobId, bytes, order)
                         + [End(blobId, ChunkCount(|bytes|), sha256)]);
            ReceiveAll(w, blobId, Unknown, posts)
              == if 0 < |bytes| <= 268435456 then Completed(bytes, sha256) else Unknown
  {
    var sha256 := w.digest(bytes);
    var begin, end := Begin(blobId, |bytes|, sha256), End(blobId, ChunkCount(|bytes|), sha256);
    var chunks := Shuffled(w, blobId, bytes, order);
    var first := Receive(w, blobId, Unknown, begin);
    assert ([begin] + (chunks + [end]))[1..] == chunks + [end];
    ReceiveInOrder(w, blobId, first, chunks, [end]);
    assert [end][1..] == [];
    if 0 < |bytes| <= MAX_BLOB_SIZE {
      ChunksArrive(w, blobId, first.assembly, bytes, sha256, order);
      AllArrivedIsWhole(w, blobId, ReceiveAll(w, blobId, first, chunks).assembly, bytes);
    } else {
      UnknownStaysUnknown(w, blobId, chunks);
    }
  }

  lemma {:induction false} UnknownStaysUnknown(w: Wire, blobId: string, posts: seq<Post>)
    requires forall k :: 0 <= k < |posts| ==> !posts[k].Begin?
    ensures ReceiveAll(w, blobId, Unknown, posts) == Unknown
    decreases |posts|
  {
    if posts != [] {
      assert Receive(w, blobId, Unknown, posts[0]) == Unknown;
      UnknownStaysUnknown(w, blobId, posts[1..]);
    }
  }

  /** In particular for the order the extension sends them in, and the encoding it uses. */
  lemma SentBlobArrives(digest: Bytes -> string, blobId: string, bytes: Bytes)
    requires 0 < |bytes| <= MAX_BLOB_SIZE
    ensures var w := Rfc4648(digest);
            ReceiveAll(w, blobId, Unknown, BlobPosts(w, blobId, bytes, digest(bytes))) == Completed(bytes, digest(bytes))
  {
    Rfc4648IsFaithful(digest);
    var w := Rfc4648(digest);
    InSendingOrder(w, blobId, bytes);
  }

  lemma InSendingOrder(w: Wire, blobId: string, bytes: Bytes)
    requires Faithful(w) && 0 < |bytes| <= MAX_BLOB_SIZE
    ensures ReceiveAll(w, blobId, Unknown, BlobPosts(w, blobId, bytes, w.digest(bytes))) == Completed(bytes, w.digest(bytes))
  {
    var order := seq(ChunkCount(|bytes|), k requires 0 <= k => k);
    BlobArrives(w, blobId, bytes, order);
    assert Shuffled(w, blobId, bytes, order) == ChunkPosts(w, blobId, bytes);
    assert BlobPosts(w, blobId, bytes, w.digest(bytes))
        == [Begin(blobId, |bytes|, w.digest(bytes))] + (Shuffled(w, blobId, bytes, order)
           + [End(blobId, ChunkCount(|bytes|), w.digest(bytes))]);
  }

  ghost predicate Announced(posts: seq<Post>, blobId: string, sha256: string) {
    forall k :: 0 <= k < |posts| && posts[k].Begin? && posts[k].blobId == blobId ==> posts[k].sha256 == sha256
  }

  predicate Honest(w: Wire, slot: Slot, sha256: string) {
    match slot
    case Unknown => true
    case Assembling(a) => a.sha256 == sha256
    case Completed(bytes, s) => s == sha256 && w.digest(bytes) == sha256
  }

  lemma {:induction false} PublishedMatchesDigest(w: Wire, blobId: string, slot: Slot, posts: seq<Post>, sha256: string)
    requires Announced(posts, blobId, sha256) && Honest(w, slot, sha256)
    ensures Honest(w, ReceiveAll(w, blobId, slot, posts), sha256)
    decreases |posts|
  {
    if posts != [] {
      assert Honest(w, Receive(w, blobId, slot, posts[0]), sha256);
      PublishedMatchesDigest(w, blobId, Receive(w, blobId, slot, posts[0]), posts[1..], sha256);
    }
  }

  /**
   Integrity against any traffic at all: lost, repeated, reordered or foreign chunk
   and end messages can stop a blob from being published, but with collision-free
   digests nothing except the announced bytes is ever published under its id.
   */
  lemma OnlyTheAnnouncedBytes(w: Wire, blobId: string, bytes: Bytes, posts: seq<Post>)
    requires forall x, y :: w.digest(x) == w.digest(y) ==> x == y
    requires Announced(posts, blobId, w.digest(bytes))
    ensures var end := ReceiveAll(w, blobId, Unknown, posts);
            end.Completed? ==> end.bytes == bytes
  {
    PublishedMatchesDigest(w, blobId, Unknown, posts, w.digest(bytes));
  }
}
