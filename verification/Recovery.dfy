/**
 `recovery` and `verify_restore`: every selected file is copied into a new backup
 directory together with a manifest of paths, sizes and digests, and the backup
 is at once restored into a scratch directory to prove that it can be.
 */
module Recovery {
  import opened Prelude
  import opened Octets

  type Files = map<string, Bytes>

  datatype Record = Record(path: string, sha256: string, bytes: nat)

  function Describe(digest: Bytes -> string, path: string, data: Bytes): Record {
    Record(path, digest(data), |data|)
  }

  function Manifest(digest: Bytes -> string, names: seq<string>, files: Files): seq<Record>
    requires forall n :: n in names ==> n in files
  {
    if names == [] then [] else [Describe(digest, names[0], files[names[0]])] + Manifest(digest, names[1..], files)
  }

  predicate Matches(digest: Bytes -> string, backup: Files, r: Record) {
    r.path in backup && |backup[r.path]| == r.bytes && digest(backup[r.path]) == r.sha256
  }

  predicate Distinct(names: seq<string>) {
    forall i, j :: 0 <= i < j < |names| ==> names[i] != names[j]
  }

  /** The manifest names no path twice and no path already in the target. */
  predicate Restorable(target: Files, manifest: seq<Record>) {
    && (forall i, j :: 0 <= i < j < |manifest| ==> manifest[i].path != manifest[j].path)
    && (forall i :: 0 <= i < |manifest| ==> manifest[i].path !in target)
  }

  /** Restoring record by record; a record that does not match, or whose file exists, raises. */
  function RestoreAll(digest: Bytes -> string, backup: Files, target: Files, manifest: seq<Record>): Option<Files>
    decreases |manifest|
  {
    if manifest == [] then Some(target)
    else if !Matches(digest, backup, manifest[0]) || manifest[0].path in target then None
    else RestoreAll(digest, backup, target[manifest[0].path := backup[manifest[0].path]], manifest[1..])
  }

  /** It succeeds exactly when every record matches and no file would be created twice. */
  lemma {:induction false} RestoreSucceeds(digest: Bytes -> string, backup: Files, target: Files, manifest: seq<Record>)
    ensures RestoreAll(digest, backup, target, manifest).Some? <==>
              (forall i :: 0 <= i < |manifest| ==> Matches(digest, backup, manifest[i])) && Restorable(target, manifest)
    decreases |manifest|
  {
    if manifest != [] && Matches(digest, backup, manifest[0]) && manifest[0].path !in target {
      var rest := manifest[1..];
      var next := target[manifest[0].path := backup[manifest[0].path]];
      RestoreSucceeds(digest, backup, next, rest);
      assert forall i :: 0 < i < |manifest| ==> manifest[i] == rest[i - 1];
      if Restorable(target, manifest) {
        assert forall i :: 0 <= i < |rest| ==> rest[i] == manifest[i + 1];
        assert Restorable(next, rest);
      }
      if Restorable(next, rest) {
        forall i, j | 0 <= i < j < |manifest|
          ensures manifest[i].path != manifest[j].path
        {
          assert manifest[j] == rest[j - 1] && (i > 0 ==> manifest[i] == rest[i - 1]);
        }
      }
      if forall i :: 0 <= i < |manifest| ==> Matches(digest, backup, manifest[i]) {
        assert forall i :: 0 <= i < |rest| ==> Matches(digest, backup, rest[i]) by {
          assert forall i :: 0 <= i < |rest| ==> rest[i] == manifest[i + 1];
        }
      }
    }
  }

  /** Then the target holds the recorded paths with the backup's bytes, next to what it held before. */
  lemma {:induction false} RestoredContents(digest: Bytes -> string, backup: Files, target: Files, manifest: seq<Record>)
    requires RestoreAll(digest, backup, target, manifest).Some?
    ensures var out := RestoreAll(digest, backup, target, manifest).value;
            forall p :: (p in out <==> p in target || exists i :: 0 <= i < |manifest| && manifest[i].path == p)
                        && (p in out ==> p in target || p in backup)
                        && (p in out ==> out[p] == if p in target then target[p] else backup[p])
    decreases |manifest|
  {
    if manifest != [] {
      var next := target[manifest[0].path := backup[manifest[0].path]];
      RestoredContents(digest, backup, next, manifest[1..]);
      var out := RestoreAll(digest, backup, target, manifest).value;
      forall p
        ensures p in out <==> p in target || exists i :: 0 <= i < |manifest| && manifest[i].path == p
      {
        if i :| 0 <= i < |manifest[1..]| && manifest[1..][i].path == p {
          assert manifest[i + 1].path == p;
        }
        if i :| 0 <= i < |manifest| && manifest[i].path == p && i > 0 {
          assert manifest[1..][i - 1].path == p;
        }
      }
    }
  }

  /** `verify_restore` into a directory that already holds `start`. */
  method VerifyRestore(digest: Bytes -> string, backup: Files, start: Files, manifest: seq<Record>)
    returns (restored: Option<nat>, target: Files)
    ensures restored == if RestoreAll(digest, backup, start, manifest).Some? then Some(|manifest|) else None
    ensures restored.Some? ==> Some(target) == RestoreAll(digest, backup, start, manifest)
  {
    target := start;
    var count := 0;
    while count < |manifest|
      invariant count <= |manifest|
      invariant RestoreAll(digest, backup, start, manifest) == RestoreAll(digest, backup, target, manifest[count..])
    {
      var record := manifest[count];
      if record.path !in backup {
        return None, target;
      }
      var data := backup[record.path];
      if |data| != record.bytes || digest(data) != record.sha256 {
        return None, target;
      }
      if record.path in target {
        return None, target;
      }
      target := target[record.path := data];
      if digest(target[record.path]) != record.sha256 {
        return None, target;
      }
      assert manifest[count..][1..] == manifest[count + 1..];
      count := count + 1;
    }
    restored := Some(count);
  }

  /** The copy loop: `sources` gives each selected file's bytes, or nothing when reading it fails. */
  method CopyAll(digest: Bytes -> string, secretFree: Bytes -> bool, names: seq<string>, sources: map<string, Option<Bytes>>)
    returns (ok: bool, backup: Files, manifest: seq<Record>)
    requires Distinct(names) && sources.Keys == set n | n in names
    ensures ok <==> forall n :: n in names ==> sources[n].Some? && secretFree(sources[n].value)
    ensures ok ==> backup == Originals(sources)
    ensures ok ==> |manifest| == |names| && backup.Keys == sources.Keys
    ensures ok ==> forall i :: 0 <= i < |names| ==> manifest[i] == Describe(digest, names[i], backup[names[i]])
    ensures forall p :: p in backup ==> p in sources && sources[p] == Some(backup[p])
  {
    backup, manifest := map[], [];
    for k := 0 to |names|
      invariant forall i :: 0 <= i < k ==> sources[names[i]].Some? && secretFree(sources[names[i]].value)
      invariant forall i :: 0 <= i < k ==> names[i] in backup
      invariant forall p :: p in backup ==> p in sources && sources[p] == Some(backup[p])
      invariant |manifest| == k
      invariant forall i :: 0 <= i < k ==> manifest[i] == Describe(digest, names[i], backup[names[i]])
    {
      var name := names[k];
      if sources[name].None? || !secretFree(sources[name].value) {
        return false, backup, manifest;
      }
      var data := sources[name].value;
      backup := backup[name := data];
      manifest := manifest + [Describe(digest, name, data)];
    }
    ok := true;
    assert forall n :: n in sources ==> n in backup;
  }

  /**
   `recovery`: copy, write the manifest, prove it restorable. A receipt is written
   exactly when every selected file could be read and is free of secrets; it then
   counts all of them, and the backup holds exactly the original bytes.
   */
  method Recover(digest: Bytes -> string, secretFree: Bytes -> bool, names: seq<string>, sources: map<string, Option<Bytes>>)
    returns (receipt: Option<nat>, backup: Files, manifest: seq<Record>)
    requires Distinct(names) && sources.Keys == set n | n in names
    ensures receipt == if forall n :: n in names ==> sources[n].Some? && secretFree(sources[n].value)
                       then Some(|names|) else None
    ensures receipt.Some? ==> backup == Originals(sources) && backup.Keys == sources.Keys
    ensures receipt.Some? ==> manifest == Manifest(digest, names, backup)
    ensures forall p :: p in backup ==> p in sources && sources[p] == Some(backup[p])
  {
    var ok;
    ok, backup, manifest := CopyAll(digest, secretFree, names, sources);
    if !ok {
      return None, backup, manifest;
    }
    ManifestIsPointwise(digest, names, backup, manifest);
    ManifestMatches(digest, names, backup, backup);
    RestoreSucceeds(digest, backup, map[], manifest);
    var scratch;
    receipt, scratch := VerifyRestore(digest, backup, map[], manifest);
  }

  function Originals(sources: map<string, Option<Bytes>>): Files {
    map n | n in sources && sources[n].Some? :: sources[n].value
  }

  lemma {:induction false} ManifestAt(digest: Bytes -> string, names: seq<string>, files: Files, i: nat)
    requires i < |names| && forall n :: n in names ==> n in files
    ensures |Manifest(digest, names, files)| == |names|
    ensures Manifest(digest, names, files)[i] == Describe(digest, names[i], files[names[i]])
  {
    if |names| > 1 {
      ManifestAt(digest, names[1..], files, if i == 0 then 0 else i - 1);
    }
  }

  lemma ManifestIsPointwise(digest: Bytes -> string, names: seq<string>, files: Files, manifest: seq<Record>)
    requires |manifest| == |names| && forall n :: n in names ==> n in files
    requires forall i :: 0 <= i < |names| ==> manifest[i] == Describe(digest, names[i], files[names[i]])
    ensures manifest == Manifest(digest, names, files)
  {
    if names != [] {
      ManifestAt(digest, names, files, 0);
    }
    forall i | 0 <= i < |names|
      ensures manifest[i] == Manifest(digest, names, files)[i]
    {
      ManifestAt(digest, names, files, i);
    }
  }

  ghost predicate Injective(digest: Bytes -> string) {
    forall x, y :: digest(x) == digest(y) ==> x == y
  }

  /** Which backups a manifest accepts: with collision-free digests, only those that still hold the files it was made from. */
  lemma ManifestMatches(digest: Bytes -> string, names: seq<string>, files: Files, backup: Files)
    requires Distinct(names) && forall n :: n in names ==> n in files
    ensures Restorable(map[], Manifest(digest, names, files))
    ensures (forall n :: n in names ==> n in backup && backup[n] == files[n]) ==>
              forall i :: 0 <= i < |Manifest(digest, names, files)| ==> Matches(digest, backup, Manifest(digest, names, files)[i])
    ensures Injective(digest) && (forall i :: 0 <= i < |Manifest(digest, names, files)|
                                              ==> Matches(digest, backup, Manifest(digest, names, files)[i])) ==>
              forall n :: n in names ==> n in backup && backup[n] == files[n]
  {
    var m := Manifest(digest, names, files);
    if names != [] {
      ManifestAt(digest, names, files, 0);
    }
    forall i | 0 <= i < |names|
      ensures m[i] == Describe(digest, names[i], files[names[i]])
    {
      ManifestAt(digest, names, files, i);
    }
  }

  /**
   The backup round trip, at any later time and whatever has happened to the
   backup since: with collision-free digests, restoring against the manifest
   succeeds exactly when every recorded file still has its original bytes, and a
   restore that succeeds recreates precisely the original files.
   */
  lemma RestoreRecreatesOriginals(digest: Bytes -> string, names: seq<string>, files: Files, laterBackup: Files)
    requires Injective(digest) && Distinct(names) && files.Keys == set n | n in names
    ensures var out := RestoreAll(digest, laterBackup, map[], Manifest(digest, names, files));
            && (out.Some? <==> forall n :: n in files ==> n in laterBackup && laterBackup[n] == files[n])
            && (out.Some? ==> out.value == files)
  {
    ManifestMatches(digest, names, files, laterBackup);
    RestoreSucceeds(digest, laterBackup, map[], Manifest(digest, names, files));
    if RestoreAll(digest, laterBackup, map[], Manifest(digest, names, files)).Some? {
      FaithfulBackupRestores(digest, names, files, laterBackup);
    }
  }

  lemma FaithfulBackupRestores(digest: Bytes -> string, names: seq<string>, files: Files, backup: Files)
    requires files.Keys == set n | n in names
    requires forall n :: n in files ==> n in backup && backup[n] == files[n]
    requires RestoreAll(digest, backup, map[], Manifest(digest, names, files)).Some?
    ensures RestoreAll(digest, backup, map[], Manifest(digest, names, files)).value == files
  {
    var manifest := Manifest(digest, names, files);
    RestoredContents(digest, backup, map[], manifest);
    ManifestPaths(digest, names, files);
    var out := RestoreAll(digest, backup, map[], manifest).value;
    forall p
      ensures p in out <==> p in files
    {
      if i :| 0 <= i < |manifest| && manifest[i].path == p {
        assert names[i] == p;
      }
      if i :| 0 <= i < |names| && names[i] == p {
        assert manifest[i].path == p;
      }
    }
  }

  lemma ManifestPaths(digest: Bytes -> string, names: seq<string>, files: Files)
    requires forall n :: n in names ==> n in files
    ensures |Manifest(digest, names, files)| == |names|
    ensures forall i :: 0 <= i < |names| ==> Manifest(digest, names, files)[i].path == names[i]
  {
    if names != [] {
      ManifestAt(digest, names, files, 0);
    }
    forall i | 0 <= i < |names|
      ensures Manifest(digest, names, files)[i].path == names[i]
    {
      ManifestAt(digest, names, files, i);
    }
  }
}
