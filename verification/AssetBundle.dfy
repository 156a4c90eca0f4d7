/**
 The embedded web bundle: the build script compresses every file, lays the results
 end to end in one blob and writes an index; the server looks paths up in the index
 by binary search and serves the slice, compressed or not. A stored length equal to
 the raw length marks an entry as uncompressed.
 */
module AssetBundle {
  import opened Prelude
  import opened Numbers
  import opened Octets

  const U32 := 0x1_0000_0000

  datatype File = File(path: string, raw: Bytes)

  datatype Compressed = Compressed(path: string, stored: Bytes, rawLen: nat)

  datatype Entry = Entry(path: string, offset: nat, stored: nat, raw: nat)

  /** The compressor, which may fail, and its inverse. */
  datatype Brotli = Brotli(compress: Bytes -> Option<Bytes>, decompress: Bytes -> Bytes)

  ghost predicate Lossless(brotli: Brotli) {
    forall b: Bytes {:trigger brotli.compress(b)} :: brotli.compress(b).Some? ==> brotli.decompress(brotli.compress(b).value) == b
  }

  /** Compression pays when it gains more than five percent; otherwise the raw bytes are stored. */
  predicate Pays(raw: Bytes, out: Option<Bytes>) {
    out.Some? && 100 * |out.value| < 95 * |raw|
  }

  function CompressOne(brotli: Brotli, f: File): Compressed {
    var out := brotli.compress(f.raw);
    Compressed(f.path, if Pays(f.raw, out) then out.value else f.raw, |f.raw|)
  }

  /** Compressed bytes are stored if compressing worked and leaves less than 95 percent, the raw ones otherwise. */
  lemma CompressOneMeans(brotli: Brotli, f: File)
    ensures var c, out := CompressOne(brotli, f), brotli.compress(f.raw);
            && c.path == f.path && c.rawLen == |f.raw|
            && (out.Some? && (|out.value| as real) < 0.95 * |f.raw| as real ==> c.stored == out.value)
            && (out.None? || (|out.value| as real) >= 0.95 * |f.raw| as real ==> c.stored == f.raw)
  {
  }

  function CompressAll(brotli: Brotli, files: seq<File>): seq<Compressed> {
    seq(|files|, i requires 0 <= i < |files| => CompressOne(brotli, files[i]))
  }

  // ---------------------------------------------------------- compressing

  /** `files.chunks(n)` */
  function Chunks(files: seq<File>, n: nat): seq<seq<File>>
    requires n > 0
  {
    if |files| == 0 then [] else if |files| <= n then [files] else [files[..n]] + Chunks(files[n..], n)
  }

  function FlatCompress(brotli: Brotli, chunks: seq<seq<File>>): seq<Compressed> {
    if chunks == [] then [] else CompressAll(brotli, chunks[0]) + FlatCompress(brotli, chunks[1..])
  }

  function ChunkSize(count: nat, threads: nat): (n: nat)
    ensures n > 0
  {
    var t := Max(threads, 1);
    Max((count + t - 1) / t, 1)
  }

  /** One thread per chunk, joined in order: the same as compressing the files one after the other. */
  lemma ParallelIsSequential(brotli: Brotli, files: seq<File>, threads: nat)
    ensures FlatCompress(brotli, Chunks(files, ChunkSize(|files|, threads))) == CompressAll(brotli, files)
  {
    ChunksCover(brotli, files, ChunkSize(|files|, threads));
  }

  lemma {:induction false} ChunksCover(brotli: Brotli, files: seq<File>, n: nat)
    requires n > 0
    ensures FlatCompress(brotli, Chunks(files, n)) == CompressAll(brotli, files)
  {
    if |files| > n {
      ChunksCover(brotli, files[n..], n);
      var chunks := Chunks(files, n);
      assert chunks[1..] == Chunks(files[n..], n);
      assert CompressAll(brotli, files[..n]) + CompressAll(brotli, files[n..]) == CompressAll(brotli, files);
    } else if |files| > 0 {
      assert [files][1..] == [] && FlatCompress(brotli, [files]) == CompressAll(brotli, files) + [];
    }
  }

  /** The work is cut for the threads there are: no more chunks than threads, and none longer than an even share rounded up. */
  lemma ChunksForThreads(files: seq<File>, threads: nat)
    requires threads > 0
    ensures var n := ChunkSize(|files|, threads);
            && |Chunks(files, n)| <= threads
            && (files != [] ==> (n - 1) * threads < |files| <= n * threads)
            && forall c :: c in Chunks(files, n) ==> 0 < |c| <= n
  {
    var n := ChunkSize(|files|, threads);
    var q := (|files| + threads - 1) / threads;
    assert |files| + threads - 1 == q * threads + (|files| + threads - 1) % threads;
    ShareRoundedUp(|files|, threads, q, (|files| + threads - 1) % threads);
    ChunkCountBound(files, n, threads);
  }

  lemma ShareRoundedUp(count: nat, threads: nat, q: nat, r: nat)
    requires threads > 0 && r < threads && count + threads - 1 == q * threads + r
    ensures count <= q * threads && (count > 0 ==> q > 0 && (q - 1) * threads < count)
  {
    assert (q - 1) * threads == q * threads - threads;
    assert q == 0 ==> q * threads == 0;
  }

  lemma {:induction false} ChunkCountBound(files: seq<File>, n: nat, threads: nat)
    requires n > 0 && |files| <= n * threads
    ensures |Chunks(files, n)| <= threads
    ensures forall c :: c in Chunks(files, n) ==> 0 < |c| <= n
  {
    assert threads == 0 ==> n * threads == 0;
    if |files| > n {
      assert n * (threads - 1) == n * threads - n;
      ChunkCountBound(files[n..], n, threads - 1);
    }
  }

  // --------------------------------------------------------------- laying out

  function Blob(parts: seq<Compressed>): Bytes {
    if parts == [] then [] else Blob(parts[..|parts| - 1]) + parts[|parts| - 1].stored
  }

  /** Index entries, every number cast to 32 bits. */
  function IndexOf(parts: seq<Compressed>): seq<Entry> {
    seq(|parts|, i requires 0 <= i < |parts| => EntryOf(parts[i], |Blob(parts[..i])|))
  }

  function EntryOf(part: Compressed, offset: nat): Entry {
    Entry(part.path, offset % U32, |part.stored| % U32, part.rawLen % U32)
  }

  lemma BlobGrows(parts: seq<Compressed>, k: nat)
    requires k < |parts|
    ensures Blob(parts[..k + 1]) == Blob(parts[..k]) + parts[k].stored
  {
    assert parts[..k + 1][..k] == parts[..k];
  }

  lemma IndexGrows(parts: seq<Compressed>, k: nat)
    requires k < |parts|
    ensures IndexOf(parts)[..k + 1] == IndexOf(parts)[..k] + [EntryOf(parts[k], |Blob(parts[..k])|)]
  {
  }

  method WriteBundle(brotli: Brotli, files: seq<File>, threads: nat) returns (blob: Bytes, entries: seq<Entry>)
    ensures blob == Blob(CompressAll(brotli, files))
    ensures entries == IndexOf(CompressAll(brotli, files))
  {
    var compressed := FlatCompress(brotli, Chunks(files, ChunkSize(|files|, threads)));
    ParallelIsSequential(brotli, files, threads);
    blob, entries := [], [];
    for k := 0 to |compressed|
      invariant blob == Blob(compressed[..k])
      invariant entries == IndexOf(compressed)[..k]
    {
      var part := compressed[k];
      var entry := EntryOf(part, |blob|);
      BlobGrows(compressed, k);
      IndexGrows(compressed, k);
      blob := blob + part.stored;
      entries := entries + [entry];
    }
    assert compressed[..|compressed|] == compressed;
  }

  /** The parts tile the blob: each lies where the ones before it end, and the last one ends it. */
  lemma {:induction false} PartsTileTheBlob(parts: seq<Compressed>, i: nat)
    requires i < |parts|
    ensures |Blob(parts[..i])| + |parts[i].stored| == |Blob(parts[..i + 1])| <= |Blob(parts)|
    ensures Blob(parts)[|Blob(parts[..i])|..|Blob(parts[..i + 1])|] == parts[i].stored
    decreases |parts|
  {
    var init := parts[..|parts| - 1];
    var start, end := |Blob(parts[..i])|, |Blob(parts[..i + 1])|;
    BlobGrows(parts, i);
    if i == |parts| - 1 {
      assert parts[..i + 1] == parts;
    } else {
      PartsTileTheBlob(init, i);
      assert init[..i] == parts[..i] && init[..i + 1] == parts[..i + 1] && init[i] == parts[i];
      assert Blob(parts) == Blob(init) + parts[|parts| - 1].stored;
      assert Blob(parts)[start..end] == Blob(init)[start..end];
    }
  }

  // ------------------------------------------------------------- the server

  predicate Less(a: string, b: string) {
    b != [] && (a == [] || a[0] < b[0] || (a[0] == b[0] && Less(a[1..], b[1..])))
  }

  lemma {:induction false} LessIsTotal(a: string, b: string)
    ensures Less(a, b) || a == b || Less(b, a)
    ensures !(Less(a, b) && Less(b, a)) && !Less(a, a)
  {
    if a != [] && b != [] {
      LessIsTotal(a[1..], b[1..]);
      LessIsTotal(a[1..], a[1..]);
      assert a == [a[0]] + a[1..] && b == [b[0]] + b[1..];
    } else if a != [] {
      LessIsTotal(a[1..], a[1..]);
    }
  }

  ghost predicate SortedByPath(entries: seq<Entry>) {
    forall i, j :: 0 <= i < j < |entries| ==> Less(entries[i].path, entries[j].path)
  }

  datatype Asset = Asset(bytes: Bytes, compressed: bool)

  /** The binary search of the index and the slice it yields. */
  method Lookup(entries: seq<Entry>, blob: Bytes, path: string) returns (asset: Option<Asset>)
    requires SortedByPath(entries)
    requires forall i :: 0 <= i < |entries| ==> entries[i].offset + entries[i].stored <= |blob|
    ensures asset.None? <==> forall i :: 0 <= i < |entries| ==> entries[i].path != path
    ensures forall i :: 0 <= i < |entries| && entries[i].path == path ==>
              asset == Some(Asset(blob[entries[i].offset..entries[i].offset + entries[i].stored],
                                  entries[i].stored != entries[i].raw))
  {
    var lo, hi := 0, |entries|;
    while lo < hi
      invariant 0 <= lo <= hi <= |entries|
      invariant forall i :: 0 <= i < lo ==> entries[i].path != path
      invariant forall i :: hi <= i < |entries| ==> entries[i].path != path
    {
      var mid := lo + (hi - lo) / 2;
      var e := entries[mid];
      if e.path == path {
        forall i | 0 <= i < |entries| && i != mid
          ensures entries[i].path != path
        {
          LessIsTotal(entries[i].path, path);
        }
        return Some(Asset(blob[e.offset..e.offset + e.stored], e.stored != e.raw));
      }
      LessIsTotal(e.path, path);
      if Less(e.path, path) {
        forall i | 0 <= i <= mid
          ensures entries[i].path != path
        {
          LessIsTotal(entries[i].path, path);
        }
        lo := mid + 1;
      } else {
        forall i | mid <= i < |entries|
          ensures entries[i].path != path
        {
          LessIsTotal(entries[i].path, path);
        }
        hi := mid;
      }
    }
    asset := None;
  }

  /** What a client ends up with. */
  function Served(brotli: Brotli, asset: Asset): Bytes {
    if asset.compressed then brotli.decompress(asset.bytes) else asset.bytes
  }

  function AssetAt(brotli: Brotli, files: seq<File>, i: nat): Option<Asset>
    requires i < |files|
  {
    var parts := CompressAll(brotli, files);
    var e := IndexOf(parts)[i];
    if e.offset + e.stored <= |Blob(parts)| then Some(Asset(Blob(parts)[e.offset..e.offset + e.stored], e.stored != e.raw)) else None
  }

  /**
   The length marker tells the truth about one file exactly when compressing it does
   not save a whole, positive number of times four gigabytes; so it always does below
   that size, and whenever compression does not pay.
   */
  lemma MarkerIsHonest(brotli: Brotli, files: seq<File>, i: nat)
    requires i < |files|
    ensures var e := IndexOf(CompressAll(brotli, files))[i];
            var pays := Pays(files[i].raw, brotli.compress(files[i].raw));
            var saved := |files[i].raw| - |CompressOne(brotli, files[i]).stored|;
            && ((e.stored != e.raw <==> pays) <==> !(saved > 0 && saved % U32 == 0))
            && (|files[i].raw| < U32 ==> (e.stored != e.raw <==> pays))
  {
    var raw, stored := |files[i].raw|, |CompressOne(brotli, files[i]).stored|;
    SameModuloWhenMultiple(raw, stored);
    if Pays(files[i].raw, brotli.compress(files[i].raw)) && raw < U32 {
      assert 0 < raw - stored < U32;
    }
  }

  lemma SameModuloWhenMultiple(a: nat, b: nat)
    ensures a % U32 == b % U32 <==> (a - b) % U32 == 0
  {
  }

  /** Under four gigabytes no offset wraps, and the slice of entry `i` is what was stored for file `i`. */
  lemma SliceIsTheStoredPart(brotli: Brotli, files: seq<File>, i: nat)
    requires i < |files| && |Blob(CompressAll(brotli, files))| < U32
    ensures AssetAt(brotli, files, i).Some?
    ensures AssetAt(brotli, files, i).value.bytes == CompressOne(brotli, files[i]).stored
  {
    var parts := CompressAll(brotli, files);
    PartsTileTheBlob(parts, i);
    OffsetsFit(parts, i);
  }

  lemma OffsetsFit(parts: seq<Compressed>, i: nat)
    requires i < |parts| && |Blob(parts[..i])| + |parts[i].stored| < U32
    ensures IndexOf(parts)[i].offset == |Blob(parts[..i])| && IndexOf(parts)[i].stored == |parts[i].stored|
  {
    NoWrap(|Blob(parts[..i])|);
    NoWrap(|parts[i].stored|);
  }

  lemma NoWrap(n: nat)
    requires n < U32
    ensures n % U32 == n
  {
  }

  /** What compressing one file saves, in bytes. */
  function Saved(brotli: Brotli, f: File): int {
    |f.raw| - |CompressOne(brotli, f).stored|
  }

  /**
   With the blob under four gigabytes, the slice the index gives for a file lies inside
   the blob and is served as the file's bytes, exactly unless compression saves a whole,
   positive number of times four gigabytes; so always for a raw file below that size.
   */
  lemma EveryFileIsServed(brotli: Brotli, files: seq<File>, i: nat)
    requires Lossless(brotli) && i < |files|
    requires |Blob(CompressAll(brotli, files))| < U32
    ensures AssetAt(brotli, files, i).Some?
    ensures Served(brotli, AssetAt(brotli, files, i).value) == files[i].raw
            <==> !(Saved(brotli, files[i]) > 0 && Saved(brotli, files[i]) % U32 == 0)
    ensures |files[i].raw| < U32 ==> Served(brotli, AssetAt(brotli, files, i).value) == files[i].raw
  {
    SliceIsTheStoredPart(brotli, files, i);
    MarkerIsHonest(brotli, files, i);
    var out := brotli.compress(files[i].raw);
    assert out.Some? ==> brotli.decompress(out.value) == files[i].raw;
  }

  /** `files` is what sorting `collected` by path may yield. */
  ghost predicate IsSorting(collected: seq<File>, files: seq<File>) {
    && multiset(files) == multiset(collected)
    && forall i, j :: 0 <= i < j < |files| ==> !Less(files[j].path, files[i].path)
  }

  /** A relative path names one file of the directory. */
  ghost predicate PathsDistinct(collected: seq<File>) {
    forall i, j :: 0 <= i < j < |collected| ==> collected[i].path != collected[j].path
  }

  lemma SameMembers(collected: seq<File>, files: seq<File>)
    requires multiset(files) == multiset(collected)
    ensures forall f :: f in files <==> f in collected
  {
    forall f
      ensures f in files <==> f in collected
    {
      assert f in files <==> multiset(files)[f] > 0;
      assert f in collected <==> multiset(collected)[f] > 0;
    }
  }

  lemma TwiceIsTwice(files: seq<File>, i: nat, j: nat)
    requires i < j < |files| && files[i] == files[j]
    ensures multiset(files)[files[i]] >= 2
  {
    assert files == files[..j] + files[j..];
    assert files[..j][i] == files[i] && files[j..][0] == files[j];
    assert multiset(files) == multiset(files[..j]) + multiset(files[j..]);
    assert files[i] in multiset(files[..j]) && files[i] in multiset(files[j..]);
  }

  lemma {:induction false} OnceIsOnce(files: seq<File>, f: File)
    requires PathsDistinct(files)
    ensures multiset(files)[f] <= 1
  {
    if files != [] {
      var init := files[..|files| - 1];
      OnceIsOnce(init, f);
      assert files == init + [files[|files| - 1]];
      if f == files[|files| - 1] {
        assert f !in init;
      }
    }
  }

  /** Sorting distinct paths puts them in strict order, which is what the binary search relies on. */
  lemma SortedStrictly(collected: seq<File>, files: seq<File>, brotli: Brotli)
    requires PathsDistinct(collected) && IsSorting(collected, files)
    ensures SortedByPath(IndexOf(CompressAll(brotli, files)))
  {
    forall i, j | 0 <= i < j < |files|
      ensures Less(files[i].path, files[j].path)
    {
      LessIsTotal(files[i].path, files[j].path);
      if files[i].path == files[j].path {
        SameMembers(collected, files);
        assert files[i] in collected && files[j] in collected;
        assert files[i] == files[j];
        TwiceIsTwice(files, i, j);
        OnceIsOnce(collected, files[i]);
        assert false;
      }
    }
  }

  /** The same, entry by entry. */
  lemma EntryServesItsFile(brotli: Brotli, files: seq<File>, i: nat)
    requires Lossless(brotli) && i < |files|
    requires |Blob(CompressAll(brotli, files))| < U32 && |files[i].raw| < U32
    ensures var blob, e := Blob(CompressAll(brotli, files)), IndexOf(CompressAll(brotli, files))[i];
            && e.path == files[i].path && e.offset + e.stored <= |blob|
            && Served(brotli, Asset(blob[e.offset..e.offset + e.stored], e.stored != e.raw)) == files[i].raw
  {
    EveryFileIsServed(brotli, files, i);
  }

  /** Every entry names a file of the bundle, lies inside the blob and decodes to the file's bytes. */
  ghost predicate Bundles(brotli: Brotli, files: seq<File>, blob: Bytes, entries: seq<Entry>) {
    && |entries| == |files| && SortedByPath(entries)
    && (forall i :: 0 <= i < |files| ==> entries[i].path == files[i].path && entries[i].offset + entries[i].stored <= |blob|)
    && (forall i :: 0 <= i < |files| ==> Served(brotli, AssetOf(blob, entries[i])) == files[i].raw)
  }

  function AssetOf(blob: Bytes, e: Entry): Asset {
    if e.offset + e.stored <= |blob| then Asset(blob[e.offset..e.offset + e.stored], e.stored != e.raw) else Asset([], false)
  }

  lemma WrittenBundles(brotli: Brotli, collected: seq<File>, files: seq<File>)
    requires Lossless(brotli) && PathsDistinct(collected) && IsSorting(collected, files)
    requires |Blob(CompressAll(brotli, files))| < U32 && forall f :: f in collected ==> |f.raw| < U32
    ensures Bundles(brotli, files, Blob(CompressAll(brotli, files)), IndexOf(CompressAll(brotli, files)))
  {
    SameMembers(collected, files);
    SortedStrictly(collected, files, brotli);
    forall i | 0 <= i < |files|
      ensures var e, blob := IndexOf(CompressAll(brotli, files))[i], Blob(CompressAll(brotli, files));
              && e.path == files[i].path && e.offset + e.stored <= |blob|
              && Served(brotli, AssetOf(blob, e)) == files[i].raw
    {
      assert files[i] in collected;
      EntryServesItsFile(brotli, files, i);
    }
  }

  /** What the search answers, in terms of the files collected. */
  lemma AnswerServes(brotli: Brotli, collected: seq<File>, files: seq<File>, blob: Bytes, entries: seq<Entry>,
                     path: string, asset: Option<Asset>)
    requires Bundles(brotli, files, blob, entries) && multiset(files) == multiset(collected)
    requires asset.None? <==> forall i :: 0 <= i < |entries| ==> entries[i].path != path
    requires forall i :: 0 <= i < |entries| && entries[i].path == path ==> asset == Some(AssetOf(blob, entries[i]))
    ensures asset.None? <==> forall f :: f in collected ==> f.path != path
    ensures forall f :: f in collected && f.path == path ==> asset.Some? && Served(brotli, asset.value) == f.raw
  {
    SameMembers(collected, files);
    forall f | f in collected && f.path == path
      ensures asset.Some? && Served(brotli, asset.value) == f.raw
    {
      var i: nat :| i < |files| && files[i] == f;
      assert entries[i].path == path;
    }
    if asset.Some? {
      var i: nat :| i < |entries| && entries[i].path == path;
      assert files[i] in collected;
    }
  }

  /**
   Build to response: whatever order the directory was listed in and however many
   threads compressed it, every collected file is found and decodes to its bytes, and
   no other path is found.
   */
  method BuildThenLookup(brotli: Brotli, collected: seq<File>, files: seq<File>, threads: nat, path: string)
    returns (asset: Option<Asset>)
    requires Lossless(brotli) && PathsDistinct(collected) && IsSorting(collected, files)
    requires |Blob(CompressAll(brotli, files))| < U32
    requires forall f :: f in collected ==> |f.raw| < U32
    ensures asset.None? <==> forall f :: f in collected ==> f.path != path
    ensures forall f :: f in collected && f.path == path ==> asset.Some? && Served(brotli, asset.value) == f.raw
  {
    var blob, entries := WriteBundle(brotli, files, threads);
    WrittenBundles(brotli, collected, files);
    asset := Lookup(entries, blob, path);
    AnswerServes(brotli, collected, files, blob, entries, path, asset);
  }

  /**
   A blob under four gigabytes alone is not enough: a raw file above that size which
   compresses well can be stored under lengths that collide after the casts, and is
   then served as if it were not compressed.
   */
  lemma HugeFileCanBeMisread()
    ensures exists brotli: Brotli, file: File ::
              && Lossless(brotli) && Pays(file.raw, brotli.compress(file.raw))
              && |Blob(CompressAll(brotli, [file]))| < U32
              && AssetAt(brotli, [file], 0).Some? && !AssetAt(brotli, [file], 0).value.compressed
              && Served(brotli, AssetAt(brotli, [file], 0).value) != file.raw
  {
    var raw: Bytes := seq(U32 + 1, _ => 7);
    var brotli := Brotli((b: Bytes) => if b == raw then Some([1]) else None, _ => raw);
    var file := File("huge.js", raw);
    var parts := CompressAll(brotli, [file]);
    assert brotli.compress(file.raw) == Some([1]);
    assert Pays(file.raw, brotli.compress(file.raw));
    assert parts == [Compressed("huge.js", [1], U32 + 1)];
    assert parts[..0] == [];
    assert Blob(parts) == Blob(parts[..0]) + [1] == [1];
    assert IndexOf(parts)[0] == Entry("huge.js", 0, 1, 1);
    var asset := AssetAt(brotli, [file], 0);
    assert asset.Some? && |asset.value.bytes| == 1 && |file.raw| == U32 + 1;
  }
}
