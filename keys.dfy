/** Object keys as the storage manager builds them: every caller-supplied
    segment is escaped on its own and the segments are joined by '/'. */
module Keys {
  import opened PathSanitizer

  /** A directory's prefix: the escaped user id and the escaped directory,
      joined by '/'. */
  function DirKey(nfd: Normalizer, userId: string, directory: string): (k: string)
    ensures AllAllowed(k)
    ensures EscapePath(nfd, userId) + "/" <= k
  {
    EscapePath(nfd, userId) + "/" + EscapePath(nfd, directory)
  }

  /** A file's key: the directory's prefix, '/', and the escaped file name. */
  function FileKey(nfd: Normalizer, userId: string, directory: string, name: string): (k: string)
    ensures AllAllowed(k)
    ensures DirKey(nfd, userId, directory) + "/" <= k
  {
    DirKey(nfd, userId, directory) + "/" + EscapePath(nfd, name)
  }

  /** The directory's prefix followed by "/.keep": the empty object that
      makes a directory visible to listings. */
  function MarkerKey(nfd: Normalizer, userId: string, directory: string): (k: string)
    ensures AllAllowed(k)
    ensures DirKey(nfd, userId, directory) + "/" <= k
  {
    DirKey(nfd, userId, directory) + "/.keep"
  }

  /** Every key lies inside the tenant's own top-level prefix. */
  lemma KeysScopedToTenant(nfd: Normalizer, userId: string, directory: string, name: string)
    ensures EscapePath(nfd, userId) + "/" <= FileKey(nfd, userId, directory, name)
    ensures EscapePath(nfd, userId) + "/" <= MarkerKey(nfd, userId, directory)
  {
    var t := EscapePath(nfd, userId) + "/";
    var d := DirKey(nfd, userId, directory);
    assert d == t + EscapePath(nfd, directory);
    assert (d + "/.keep")[..|t|] == t;
    assert (d + "/" + EscapePath(nfd, name))[..|t|] == t;
  }

  /** The directory marker is the file key of the (already escaped) name
      ".keep", so it is listed like any other file of the directory. */
  lemma MarkerIsFileKey(nfd: Normalizer, userId: string, directory: string)
    ensures MarkerKey(nfd, userId, directory) == FileKey(nfd, userId, directory, ".keep")
  {
    assert AllAllowed(".keep");
    EscapeFixesAllowed(nfd, ".keep");
  }

  /** A key is made only of allowed characters, and escaping the segments of
      a built key again changes nothing. */
  lemma KeySegmentsStable(nfd: Normalizer, userId: string, directory: string, name: string)
    ensures EscapePath(nfd, FileKey(nfd, userId, directory, name)) == FileKey(nfd, userId, directory, name)
  {
    EscapeFixesAllowed(nfd, FileKey(nfd, userId, directory, name));
  }

  /** The tenant segment does not keep tenants apart: since '/' survives
      escaping, user "a/b" and user "a" address the same object. */
  lemma TenantsCanShareKeys(nfd: Normalizer)
    ensures FileKey(nfd, "a/b", "c", "f.txt") == FileKey(nfd, "a", "b/c", "f.txt")
  {
    PlainSegments();
    EscapeFixesAllowed(nfd, "a/b");
    EscapeFixesAllowed(nfd, "a");
    EscapeFixesAllowed(nfd, "b/c");
    EscapeFixesAllowed(nfd, "c");
    EscapeFixesAllowed(nfd, "f.txt");
  }

  lemma PlainSegments()
    ensures AllAllowed("a/b") && AllAllowed("a") && AllAllowed("b/c") && AllAllowed("c")
    ensures AllAllowed("f.txt")
    ensures "a/b" + "/" + "c" == "a" + "/" + "b/c"
  {
  }
}
