/** The storage manager's public operations, run against one bucket: each
    builds its keys from the caller's segments, issues its requests in
    order and stops at the first that fails. */
module StorageManager {
  import opened Outcomes
  import opened PathSanitizer
  import opened Keys
  import opened Listings
  import opened ObjectStore
  import opened Tree
  import opened DirectoryOps
  import opened Names

  /** The `file` argument of `uploadFile`: its name and its content. */
  datatype LocalFile = LocalFile(name: string, bytes: seq<int>)

  /** The page size `listUserFiles` asks for. */
  const PageLimit: nat := 100

  /** The first `limit` entries of a listing. */
  function Page(es: seq<Entry>, limit: nat): (r: seq<Entry>)
    ensures |r| <= limit && r <= es
    ensures |es| <= limit ==> r == es
    ensures |r| == limit || r == es
  {
    if |es| <= limit then es else es[..limit]
  }

  /** After `createDirectory` the directory lists its marker: a file entry
      `.keep` of size 0. */
  lemma MarkerListed(nfd: Normalizer, userId: string, directory: string, m: Objects)
    ensures var key := MarkerKey(nfd, userId, directory);
      FileEntry(".keep", key, []) in Listing(m[key := []], DirKey(nfd, userId, directory))
  {
    var dir := DirKey(nfd, userId, directory);
    var key := MarkerKey(nfd, userId, directory);
    assert key == Child(dir, ".keep");
    ListingMembership(m[key := []], dir, FileEntry(".keep", key, []));
  }

  /** After `uploadFile` the directory lists the file under its escaped
      name, with the uploaded size, when that name is a single segment;
      when escaping leaves a '/' in it, the directory lists the folder of
      its first segment instead. */
  lemma UploadListed(nfd: Normalizer, userId: string, directory: string, file: LocalFile, m: Objects)
    ensures var dir := DirKey(nfd, userId, directory);
      var key := FileKey(nfd, userId, directory, file.name);
      var name := EscapePath(nfd, file.name);
      var after := m[key := file.bytes];
      && ('/' !in name ==> FileEntry(name, key, file.bytes) in Listing(after, dir))
      && ('/' in name ==> FolderEntry(Segment(name)) in Listing(after, dir))
  {
    var dir := DirKey(nfd, userId, directory);
    var key := FileKey(nfd, userId, directory, file.name);
    var name := EscapePath(nfd, file.name);
    var after := m[key := file.bytes];
    assert key == Child(dir, name);
    assert Inside(dir, key) && Rest(dir, key) == name;
    KeyListed(after, dir, key);
  }

  class Manager {
    const bucket: Bucket
    /** The NFD normalisation `escapePath` starts with. */
    const nfd: Normalizer

    constructor (bucket: Bucket, nfd: Normalizer)
      ensures this.bucket == bucket && this.nfd == nfd
    {
      this.bucket := bucket;
      this.nfd := nfd;
    }

    /** `createDirectory(userId, directory)`: upload the empty marker
        object, without replacing one that is there. */
    method CreateDirectory(userId: string, directory: string) returns (s: Status)
      modifies bucket
      ensures var key := MarkerKey(nfd, userId, directory);
        && bucket.clock == old(bucket.clock) + 1
        && (s.Pass? <==> old(bucket.clock) !in bucket.faults && key !in old(bucket.objects))
        && bucket.objects == (if s.Pass? then old(bucket.objects)[key := []] else old(bucket.objects))
        && (s.Fail? ==> s.error == CreateDirectoryError)
    {
      var ok := bucket.Upload(MarkerKey(nfd, userId, directory), [], false);
      s := if ok then Pass else Fail(CreateDirectoryError);
    }

    /** `uploadFile(userId, directory, file)`: upload without replacing, and
        return the key written. */
    method UploadFile(userId: string, directory: string, file: LocalFile) returns (r: Result<string>)
      modifies bucket
      ensures var key := FileKey(nfd, userId, directory, file.name);
        && bucket.clock == old(bucket.clock) + 1
        && (r.Ok? <==> old(bucket.clock) !in bucket.faults && key !in old(bucket.objects))
        && (r.Ok? ==> r.value == key && bucket.objects == old(bucket.objects)[key := file.bytes])
        && (r.Err? ==> r.error == UploadError && bucket.objects == old(bucket.objects))
    {
      var key := FileKey(nfd, userId, directory, file.name);
      var ok := bucket.Upload(key, file.bytes, false);
      r := if ok then Ok(key) else Err(UploadError);
    }

    /** `getArborescence(userId)`: the tree under the tenant's prefix. */
    method GetArborescence(userId: string) returns (r: Result<seq<Node>>)
      modifies bucket`clock
      ensures Walk(r, bucket.clock) == TraverseRun(bucket.objects, bucket.faults, EscapePath(nfd, userId), old(bucket.clock))
    {
      r := Traverse(EscapePath(nfd, userId));
    }

    /** `traverse(path)`: list one level, then build one node per entry in
        listing order, walking into every entry without an id. */
    method Traverse(path: string) returns (r: Result<seq<Node>>)
      modifies bucket`clock
      ensures Walk(r, bucket.clock) == TraverseRun(bucket.objects, bucket.faults, path, old(bucket.clock))
      decreases Height(bucket.objects, path), 1
    {
      var data := bucket.List(path);
      if data.None? {
        return Err(ListDirectoryError);
      }
      TraverseUnfold(bucket.objects, bucket.faults, path, old(bucket.clock));
      r := BuildLevel(path, data.value);
    }

    /** The loop of `traverse`: one node per entry, a folder node holding
        the tree below it and a file node holding its public URL; the first
        request that fails ends the walk. */
    method BuildLevel(path: string, es: seq<Entry>) returns (r: Result<seq<Node>>)
      requires Descends(bucket.objects, path, es)
      modifies bucket`clock
      ensures Walk(r, bucket.clock) == LevelRun(bucket.objects, bucket.faults, path, es, 0, [], old(bucket.clock))
      decreases Height(bucket.objects, path), 0
    {
      var result := [];
      var i := 0;
      while i < |es|
        invariant i <= |es|
        invariant LevelRun(bucket.objects, bucket.faults, path, es, i, result, bucket.clock) ==
          LevelRun(bucket.objects, bucket.faults, path, es, 0, [], old(bucket.clock))
        decreases |es| - i
      {
        var item := es[i];
        var here := Child(path, item.name);
        if item.id.None? {
          FolderStep(bucket.objects, bucket.faults, path, es, i, result, bucket.clock);
          var children := Traverse(here);
          if children.Err? {
            return children;
          }
          result := result + [Folder(item.name, here + "/", children.value)];
        } else {
          FileStep(bucket.objects, bucket.faults, path, es, i, result, bucket.clock);
          var url := bucket.GetPublicUrl(here);
          if url.None? {
            return Err(UrlError);
          }
          result := result + [File(item.name, FileSize(item), item.createdAt, url.value)];
        }
        i := i + 1;
      }
      return Ok(result);
    }

    /** `listUserFiles(userId, directory)`: one level, at most a page. */
    method ListUserFiles(userId: string, directory: string) returns (r: Result<seq<Entry>>)
      modifies bucket`clock
      ensures bucket.clock == old(bucket.clock) + 1
      ensures r == if old(bucket.clock) in bucket.faults then Err(ListFilesError)
        else Ok(Page(Listing(bucket.objects, DirKey(nfd, userId, directory)), PageLimit))
    {
      var data := bucket.List(DirKey(nfd, userId, directory));
      r := if data.None? then Err(ListFilesError) else Ok(Page(data.value, PageLimit));
    }

    /** `renameDirectory(userId, oldDirectory, newDirectory)`: list the old
        directory, then move each listed entry, stopping at the first move
        that fails. */
    method RenameDirectory(userId: string, oldDirectory: string, newDirectory: string) returns (s: Status)
      modifies bucket
      ensures var r := RenameRun(old(bucket.objects), bucket.faults, old(bucket.clock),
        DirKey(nfd, userId, oldDirectory), DirKey(nfd, userId, newDirectory));
        s == r.status && bucket.objects == r.objects && bucket.clock == r.clock
    {
      s := RenamePrefix(DirKey(nfd, userId, oldDirectory), DirKey(nfd, userId, newDirectory));
    }

    /** `renameDirectory` on the built prefixes `from` and `to`. */
    method RenamePrefix(from: string, to: string) returns (s: Status)
      modifies bucket
      ensures var r := RenameRun(old(bucket.objects), bucket.faults, old(bucket.clock), from, to);
        s == r.status && bucket.objects == r.objects && bucket.clock == r.clock
    {
      var files := bucket.List(from);
      if files.None? {
        return Fail(RenameListError);
      }
      RenameUnfold(old(bucket.objects), bucket.faults, old(bucket.clock), from, to);
      s := MoveEntries(from, to, files.value);
    }

    /** The loop of `renameDirectory`: move `from/name` to `to/name` for
        each entry in order, stopping at the first move that fails. */
    method MoveEntries(from: string, to: string, es: seq<Entry>) returns (s: Status)
      modifies bucket
      ensures var r := MoveEach(old(bucket.objects), bucket.faults, old(bucket.clock), from, to, es, 0);
        s == r.status && bucket.objects == r.objects && bucket.clock == r.clock
    {
      var i := 0;
      while i < |es|
        invariant i <= |es|
        invariant MoveEach(bucket.objects, bucket.faults, bucket.clock, from, to, es, i) ==
          MoveEach(old(bucket.objects), bucket.faults, old(bucket.clock), from, to, es, 0)
        decreases |es| - i
      {
        MoveStep(bucket.objects, bucket.faults, bucket.clock, from, to, es, i);
        var ok := bucket.Move(Child(from, es[i].name), Child(to, es[i].name));
        if !ok {
          return Fail(MoveEntryError(es[i].name));
        }
        i := i + 1;
      }
      return Pass;
    }

    /** `renameFile(userId, directory, oldFileName, newFileName)` */
    method RenameFile(userId: string, directory: string, oldFileName: string, newFileName: string) returns (s: Status)
      modifies bucket
      ensures var src := FileKey(nfd, userId, directory, oldFileName);
        var dst := FileKey(nfd, userId, directory, newFileName);
        && bucket.clock == old(bucket.clock) + 1
        && (s.Pass? <==> old(bucket.clock) !in bucket.faults && CanMove(old(bucket.objects), src, dst))
        && bucket.objects == (if s.Pass? then Moved(old(bucket.objects), src, dst) else old(bucket.objects))
        && (s.Fail? ==> s.error == RenameFileError)
    {
      var ok := bucket.Move(FileKey(nfd, userId, directory, oldFileName), FileKey(nfd, userId, directory, newFileName));
      s := if ok then Pass else Fail(RenameFileError);
    }

    /** `deleteDirectory(userId, directory)`: delete recursively, then list
        the directory once more and report whether it came back empty. */
    method DeleteDirectory(userId: string, directory: string) returns (s: Status, empty: bool)
      modifies bucket
      ensures var d := DeleteDirectoryRun(old(bucket.objects), bucket.faults, old(bucket.clock), DirKey(nfd, userId, directory));
        && s == d.run.status && bucket.objects == d.run.objects && bucket.clock == d.run.clock
        && (s.Pass? ==> empty == d.emptyAfter)
    {
      var path := DirKey(nfd, userId, directory);
      empty := false;
      s := DeleteFilesRecursively(path);
      if s.Fail? {
        return;
      }
      var check := bucket.List(path);
      if check.None? {
        return Fail(DeleteCheckError), false;
      }
      empty := |check.value| == 0;
    }

    /** `deleteFilesRecursively(path)`: list `path`, remove every listed
        entry, then recurse into every listed entry without an id. */
    method DeleteFilesRecursively(path: string) returns (s: Status)
      modifies bucket
      ensures var r := DeleteRun(old(bucket.objects), bucket.faults, old(bucket.clock), path);
        s == r.status && bucket.objects == r.objects && bucket.clock == r.clock
      decreases Height(bucket.objects, path), 2
    {
      var files := bucket.List(path);
      if files.None? {
        return Fail(DeleteListError);
      }
      DeleteUnfold(old(bucket.objects), bucket.faults, old(bucket.clock), path);
      s := DeleteListedEntries(path, files.value);
    }

    /** The two loops of `deleteFilesRecursively` over the listing `es`. */
    method DeleteListedEntries(path: string, es: seq<Entry>) returns (s: Status)
      requires Descends(bucket.objects, path, es)
      modifies bucket
      ensures var r := DeleteListed(old(bucket.objects), bucket.faults, old(bucket.clock), path, es);
        s == r.status && bucket.objects == r.objects && bucket.clock == r.clock
      decreases Height(bucket.objects, path), 1
    {
      ghost var m0 := bucket.objects;
      s := RemoveEntries(path, es);
      if s.Fail? {
        return;
      }
      s := DescendEntries(m0, path, es);
    }

    /** The first loop: remove `path/name` for each entry in order,
        stopping at the first remove that fails. */
    method RemoveEntries(path: string, es: seq<Entry>) returns (s: Status)
      modifies bucket
      ensures var r := RemoveEach(old(bucket.objects), bucket.faults, old(bucket.clock), path, es, 0);
        s == r.status && bucket.objects == r.objects && bucket.clock == r.clock
    {
      var i := 0;
      while i < |es|
        invariant i <= |es|
        invariant RemoveEach(bucket.objects, bucket.faults, bucket.clock, path, es, i) ==
          RemoveEach(old(bucket.objects), bucket.faults, old(bucket.clock), path, es, 0)
        decreases |es| - i
      {
        var ok := bucket.Remove(Child(path, es[i].name));
        if !ok {
          return Fail(DeleteEntryError(es[i].name));
        }
        i := i + 1;
      }
      return Pass;
    }

    /** The second loop: delete recursively under each entry without an id,
        stopping at the first that fails. `m0` is the bucket the listing
        was taken from. */
    method DescendEntries(ghost m0: Objects, path: string, es: seq<Entry>) returns (s: Status)
      requires Descends(m0, path, es) && Submap(bucket.objects, m0)
      modifies bucket
      ensures var r := DescendEach(m0, old(bucket.objects), bucket.faults, old(bucket.clock), path, es, 0);
        s == r.status && bucket.objects == r.objects && bucket.clock == r.clock
      decreases Height(m0, path), 0
    {
      s := Pass;
      var i := 0;
      while i < |es|
        invariant i <= |es| && Submap(bucket.objects, m0)
        invariant DescendEach(m0, bucket.objects, bucket.faults, bucket.clock, path, es, i) ==
          DescendEach(m0, old(bucket.objects), bucket.faults, old(bucket.clock), path, es, 0)
        decreases |es| - i
      {
        if es[i].id.None? {
          HeightMonotone(bucket.objects, m0, Child(path, es[i].name));
          DescendStep(m0, bucket.objects, bucket.faults, bucket.clock, path, es, i);
          s := DeleteFilesRecursively(Child(path, es[i].name));
          if s.Fail? {
            return;
          }
        } else {
          DescendSkip(m0, bucket.objects, bucket.faults, bucket.clock, path, es, i);
        }
        i := i + 1;
      }
      return Pass;
    }

    /** `deleteFile(userId, directory, fileName)` */
    method DeleteFile(userId: string, directory: string, fileName: string) returns (s: Status)
      modifies bucket
      ensures var key := FileKey(nfd, userId, directory, fileName);
        && bucket.clock == old(bucket.clock) + 1
        && (s.Pass? <==> old(bucket.clock) !in bucket.faults)
        && bucket.objects == (if s.Pass? then old(bucket.objects) - {key} else old(bucket.objects))
        && (s.Fail? ==> s.error == DeleteFileError)
    {
      var ok := bucket.Remove(FileKey(nfd, userId, directory, fileName));
      s := if ok then Pass else Fail(DeleteFileError);
    }

    /** `moveFile(userId, sourceDirectory, targetDirectory, fileName)` */
    method MoveFile(userId: string, sourceDirectory: string, targetDirectory: string, fileName: string) returns (s: Status)
      modifies bucket
      ensures var src := FileKey(nfd, userId, sourceDirectory, fileName);
        var dst := FileKey(nfd, userId, targetDirectory, fileName);
        && bucket.clock == old(bucket.clock) + 1
        && (s.Pass? <==> old(bucket.clock) !in bucket.faults && CanMove(old(bucket.objects), src, dst))
        && bucket.objects == (if s.Pass? then Moved(old(bucket.objects), src, dst) else old(bucket.objects))
        && (s.Fail? ==> s.error == MoveFileError)
    {
      var ok := bucket.Move(FileKey(nfd, userId, sourceDirectory, fileName), FileKey(nfd, userId, targetDirectory, fileName));
      s := if ok then Pass else Fail(MoveFileError);
    }

    /** `copyFile(userId, sourceDirectory, targetDirectory, fileName)`:
        download the source, then upload it to the target, replacing what
        is there. */
    method CopyFile(userId: string, sourceDirectory: string, targetDirectory: string, fileName: string) returns (s: Status)
      modifies bucket
      ensures var src := FileKey(nfd, userId, sourceDirectory, fileName);
        var dst := FileKey(nfd, userId, targetDirectory, fileName);
        var downloaded := old(bucket.clock) !in bucket.faults && src in old(bucket.objects);
        && (s == Fail(DownloadError) <==> !downloaded)
        && (!downloaded ==> bucket.objects == old(bucket.objects) && bucket.clock == old(bucket.clock) + 1)
        && (downloaded ==> bucket.clock == old(bucket.clock) + 2)
        && (s.Pass? <==> downloaded && old(bucket.clock) + 1 !in bucket.faults)
        && (s.Pass? ==> bucket.objects == old(bucket.objects)[dst := old(bucket.objects)[src]])
        && (s == Fail(CopyUploadError) ==> bucket.objects == old(bucket.objects))
        && (s.Fail? ==> s.error == DownloadError || s.error == CopyUploadError)
    {
      var src := FileKey(nfd, userId, sourceDirectory, fileName);
      var dst := FileKey(nfd, userId, targetDirectory, fileName);
      var data := bucket.Download(src);
      if data.None? {
        return Fail(DownloadError);
      }
      var ok := bucket.Upload(dst, data.value, true);
      s := if ok then Pass else Fail(CopyUploadError);
    }
  }
}
