/** The store's single-level `list(prefix)`, derived from the flat map of
    object keys: a direct child that is an object is a file entry (it has an
    id), a direct child that only prefixes deeper keys is a folder entry (no
    id). */
module Listings {
  import opened Outcomes
  import opened Names

  /** The bucket's contents: object key to bytes. */
  type Objects = map<string, seq<int>>

  /** One item of a listing: `name`, `id`, `metadata.size`, `created_at`. */
  datatype Entry = Entry(name: string, id: Option<string>, size: Option<int>, createdAt: Option<string>)

  function FolderEntry(name: string): Entry {
    Entry(name, None, None, None)
  }

  /** The store does not record creation times in this model. */
  function FileEntry(name: string, key: string, bytes: seq<int>): Entry {
    Entry(name, Some(key), Some(|bytes|), None)
  }

  /** The key of the child `name` of `path`: the two joined by '/'. */
  function Child(path: string, name: string): string {
    path + "/" + name
  }

  /** `key` lies strictly under the prefix `path/`. */
  predicate Inside(path: string, key: string) {
    path + "/" <= key
  }

  function Rest(path: string, key: string): string
    requires Inside(path, key)
  {
    key[|path| + 1..]
  }

  function FolderNames(m: Objects, path: string): set<string> {
    set k | k in m && Inside(path, k) && '/' in Rest(path, k) :: Segment(Rest(path, k))
  }

  function FileNames(m: Objects, path: string): set<string> {
    set k | k in m && Inside(path, k) && '/' !in Rest(path, k) :: Rest(path, k)
  }

  /** The entries for `names`, in that order; a name that is both a folder
      and an object gives the folder entry first. */
  function EntriesFor(m: Objects, path: string, names: seq<string>, folders: set<string>): seq<Entry> {
    if names == [] then []
    else
      var n := names[0];
      var key := Child(path, n);
      (if n in folders then [FolderEntry(n)] else [])
      + (if '/' !in n && key in m then [FileEntry(n, key, m[key])] else [])
      + EntriesFor(m, path, names[1..], folders)
  }

  /** `list(path)`: every direct child of `path`, ordered by name. */
  function Listing(m: Objects, path: string): seq<Entry> {
    EntriesFor(m, path, SortedNames(ChildNames(m, path)), FolderNames(m, path))
  }

  /** The names of the direct children of `path`. */
  function ChildNames(m: Objects, path: string): set<string> {
    FolderNames(m, path) + FileNames(m, path)
  }

  /** `e` is the entry the store reports for the direct child `n`. */
  predicate ListsAs(m: Objects, path: string, folders: set<string>, n: string, e: Entry) {
    || (n in folders && e == FolderEntry(n))
    || ('/' !in n && Child(path, n) in m && e == FileEntry(n, Child(path, n), m[Child(path, n)]))
  }

  lemma {:induction false} EntriesForMembers(m: Objects, path: string, names: seq<string>, folders: set<string>, e: Entry)
    ensures e in EntriesFor(m, path, names, folders) <==> e.name in names && ListsAs(m, path, folders, e.name, e)
  {
    if names != [] {
      EntriesForMembers(m, path, names[1..], folders, e);
      assert names == [names[0]] + names[1..];
    }
  }

  /** A folder name has no '/' of its own. */
  predicate IsFolderOf(m: Objects, path: string, n: string) {
    '/' !in n && exists k :: k in m && Inside(Child(path, n), k)
  }

  lemma {:induction false} SegmentOfSplit(n: string, tail: string)
    requires '/' !in n
    ensures Segment(n + "/" + tail) == n
  {
    if n != [] {
      assert (n + "/" + tail)[0] == n[0];
      assert (n + "/" + tail)[1..] == n[1..] + "/" + tail;
      SegmentOfSplit(n[1..], tail);
      assert n == [n[0]] + n[1..];
    }
  }

  lemma FolderNamesExactly(m: Objects, path: string, n: string)
    ensures n in FolderNames(m, path) <==> IsFolderOf(m, path, n)
  {
    if n in FolderNames(m, path) {
      var k :| k in m && Inside(path, k) && '/' in Rest(path, k) && Segment(Rest(path, k)) == n;
      FolderKeyNested(path, k);
    }
    if IsFolderOf(m, path, n) {
      var k :| k in m && Inside(Child(path, n), k);
      NestedKeyFolder(path, n, k);
    }
  }

  /** A key whose remainder under `path/` goes deeper lies under the folder
      of its first level. */
  lemma FolderKeyNested(path: string, k: string)
    requires Inside(path, k) && '/' in Rest(path, k)
    ensures Inside(Child(path, Segment(Rest(path, k))), k)
  {
    var r := Rest(path, k);
    assert k == path + "/" + r;
    assert Segment(r) + "/" <= r;
    assert Child(path, Segment(r)) + "/" == path + "/" + (Segment(r) + "/");
  }

  /** A key under `path/n/` has `n` as the first level of its remainder. */
  lemma NestedKeyFolder(path: string, n: string, k: string)
    requires '/' !in n && Inside(Child(path, n), k)
    ensures Inside(path, k) && '/' in Rest(path, k) && Segment(Rest(path, k)) == n
  {
    var tail := k[|Child(path, n)| + 1..];
    assert k == (path + "/") + (n + "/" + tail);
    var r := Rest(path, k);
    assert r == n + "/" + tail;
    SegmentOfSplit(n, tail);
    assert r[|n|] == '/';
  }

  lemma FileNamesExactly(m: Objects, path: string, n: string)
    ensures n in FileNames(m, path) <==> '/' !in n && Child(path, n) in m
  {
    if '/' !in n && Child(path, n) in m {
      var k := Child(path, n);
      assert Inside(path, k) && Rest(path, k) == n;
    }
    if n in FileNames(m, path) {
      var k :| k in m && Inside(path, k) && '/' !in Rest(path, k) && Rest(path, k) == n;
      assert k == Child(path, n);
    }
  }

  /** What a listing holds, in both directions: a folder entry for each
      name that prefixes deeper keys, and a file entry, with the object's
      size, for each name that is itself a key. An entry has no id exactly
      when it is a folder entry. */
  lemma ListingMembership(m: Objects, path: string, e: Entry)
    ensures e in Listing(m, path) <==>
      || (e == FolderEntry(e.name) && IsFolderOf(m, path, e.name))
      || ('/' !in e.name && Child(path, e.name) in m
          && e == FileEntry(e.name, Child(path, e.name), m[Child(path, e.name)]))
  {
    var folders := FolderNames(m, path);
    var names := folders + FileNames(m, path);
    EntriesForMembers(m, path, SortedNames(names), folders, e);
    FolderNamesExactly(m, path, e.name);
    FileNamesExactly(m, path, e.name);
  }

  /** Every key under `path/` shows up in the listing of `path`: as a file
      entry when it is a direct child, otherwise through the folder entry of
      its first level. */
  lemma KeyListed(m: Objects, path: string, k: string)
    requires k in m && Inside(path, k)
    ensures '/' !in Rest(path, k) ==>
      k == Child(path, Rest(path, k)) && FileEntry(Rest(path, k), k, m[k]) in Listing(m, path)
    ensures '/' in Rest(path, k) ==>
      FolderEntry(Segment(Rest(path, k))) in Listing(m, path)
      && Inside(Child(path, Segment(Rest(path, k))), k)
  {
    var r := Rest(path, k);
    assert k == path + "/" + r;
    if '/' in r {
      var n := Segment(r);
      assert Child(path, n) + "/" == path + "/" + (n + "/");
      assert Inside(Child(path, n), k);
      ListingMembership(m, path, FolderEntry(n));
    } else {
      ListingMembership(m, path, FileEntry(r, k, m[k]));
    }
  }

  /** A listing is empty exactly when no key lies under the prefix. */
  lemma ListingEmpty(m: Objects, path: string)
    ensures Listing(m, path) == [] <==> forall k :: k in m ==> !Inside(path, k)
  {
    if k :| k in m && Inside(path, k) {
      KeyListed(m, path, k);
    } else {
      assert FolderNames(m, path) + FileNames(m, path) == {};
    }
  }

  /** The length of the longest key. */
  ghost function MaxLen(keys: set<string>): (r: nat)
    ensures forall k :: k in keys ==> |k| <= r
    ensures keys != {} ==> exists k :: k in keys && |k| == r
    decreases |keys|
  {
    if keys == {} then 0
    else
      var k :| k in keys;
      var r := MaxLen(keys - {k});
      if |k| > r then |k| else r
  }

  /** How far keys reach below `path`; bounds the depth of a recursive walk. */
  ghost function Height(m: Objects, path: string): nat {
    var h := MaxLen(m.Keys);
    if |path| < h then h - |path| else 0
  }

  lemma HeightMonotone(small: Objects, m: Objects, path: string)
    requires small.Keys <= m.Keys
    ensures Height(small, path) <= Height(m, path)
  {
    if small.Keys != {} {
      var k :| k in small.Keys && |k| == MaxLen(small.Keys);
      assert k in m.Keys;
    }
  }

  /** Every folder entry of `es` leads one level down, where keys reach
      less far. */
  ghost predicate Descends(m: Objects, path: string, es: seq<Entry>) {
    forall j :: 0 <= j < |es| && es[j].id.None? ==> Height(m, Child(path, es[j].name)) < Height(m, path)
  }

  lemma ListingDescends(m: Objects, path: string)
    ensures Descends(m, path, Listing(m, path))
  {
    var es := Listing(m, path);
    forall j | 0 <= j < |es| && es[j].id.None?
      ensures Height(m, Child(path, es[j].name)) < Height(m, path)
    {
      FolderHeight(m, path, es[j]);
    }
  }

  /** A folder entry leads one level down, where keys reach less far. */
  lemma FolderHeight(m: Objects, path: string, e: Entry)
    requires e in Listing(m, path) && e.id.None?
    ensures Height(m, Child(path, e.name)) < Height(m, path)
  {
    ListingMembership(m, path, e);
    var k :| k in m && Inside(Child(path, e.name), k);
    assert |k| > |Child(path, e.name)|;
  }
}
