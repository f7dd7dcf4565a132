/** The tree `getArborescence` materialises: `traverse(path)` lists one
    level, turns each entry into a node in listing order, and recurses into
    every entry that has no id. */
module Tree {
  import opened Outcomes
  import opened Listings
  import opened ObjectStore

  datatype Node =
    | Folder(name: string, urlPath: string, children: seq<Node>)
    | File(name: string, size: int, createdAt: Option<string>, url: Url)

  /** The size an entry reports in its metadata, 0 when it reports none. */
  function FileSize(e: Entry): (r: int)
    ensures r == 0 <==> e.size.None? || e.size.value == 0
  {
    if e.size.Some? then e.size.value else 0
  }

  /** The outcome of a walk and the request count after it. */
  datatype Walk = Walk(result: Result<seq<Node>>, clock: nat)

  /** `traverse(path)` started when `t` requests have been issued. */
  ghost function TraverseRun(m: Objects, faults: set<nat>, path: string, t: nat): Walk
    decreases Height(m, path), 1, 0
  {
    if t in faults then Walk(Err(ListDirectoryError), t + 1)
    else
      ListingDescends(m, path);
      LevelRun(m, faults, path, Listing(m, path), 0, [], t + 1)
  }

  /** The loop of `traverse(path)` over the listed entries `es` from entry
      `i` on, `acc` holding the nodes pushed so far. */
  ghost function LevelRun(m: Objects, faults: set<nat>, path: string, es: seq<Entry>, i: nat, acc: seq<Node>, t: nat): Walk
    requires i <= |es| && Descends(m, path, es)
    decreases Height(m, path), 0, |es| - i
  {
    if i == |es| then Walk(Ok(acc), t)
    else
      var e := es[i];
      var here := Child(path, e.name);
      if e.id.None? then
        var sub := TraverseRun(m, faults, here, t);
        if sub.result.Err? then sub
        else LevelRun(m, faults, path, es, i + 1, acc + [Folder(e.name, here + "/", sub.result.value)], sub.clock)
      else if t in faults then Walk(Err(UrlError), t + 1)
      else LevelRun(m, faults, path, es, i + 1, acc + [File(e.name, FileSize(e), e.createdAt, PublicUrl(here))], t + 1)
  }

  /** The tree of `path` when no request fails: one node per listed entry, in
      listing order, a folder for each entry without id. */
  ghost function FullTree(m: Objects, path: string): seq<Node>
    decreases Height(m, path), 1, 0
  {
    ListingDescends(m, path);
    FullLevel(m, path, Listing(m, path), 0)
  }

  ghost function FullLevel(m: Objects, path: string, es: seq<Entry>, i: nat): seq<Node>
    requires i <= |es| && Descends(m, path, es)
    decreases Height(m, path), 0, |es| - i
  {
    if i == |es| then []
    else
      var e := es[i];
      var here := Child(path, e.name);
      var node :=
        if e.id.None? then Folder(e.name, here + "/", FullTree(m, here))
        else File(e.name, FileSize(e), e.createdAt, PublicUrl(here));
      [node] + FullLevel(m, path, es, i + 1)
  }

  /** Past a successful list request, a walk is the loop over the listing. */
  lemma TraverseUnfold(m: Objects, faults: set<nat>, path: string, t: nat)
    requires t !in faults
    ensures Descends(m, path, Listing(m, path))
    ensures TraverseRun(m, faults, path, t) == LevelRun(m, faults, path, Listing(m, path), 0, [], t + 1)
  {
    ListingDescends(m, path);
  }

  /** One file entry of the loop: look up its URL, then go on. */
  lemma FileStep(m: Objects, faults: set<nat>, path: string, es: seq<Entry>, i: nat, acc: seq<Node>, t: nat)
    requires i < |es| && Descends(m, path, es) && es[i].id.Some?
    ensures var e := es[i];
      LevelRun(m, faults, path, es, i, acc, t) ==
        if t in faults then Walk(Err(UrlError), t + 1)
        else LevelRun(m, faults, path, es, i + 1, acc + [File(e.name, FileSize(e), e.createdAt, PublicUrl(Child(path, e.name)))], t + 1)
  {
  }

  /** A walk that returns a tree returns the whole tree: the nodes pushed so
      far followed by those of the remaining entries. */
  lemma {:induction false} TraverseReturnsFullTree(m: Objects, faults: set<nat>, path: string, t: nat)
    ensures TraverseRun(m, faults, path, t).result.Ok? ==>
      TraverseRun(m, faults, path, t).result.value == FullTree(m, path)
    decreases Height(m, path), 1, 0, 0
  {
    if t !in faults {
      TraverseUnfold(m, faults, path, t);
      LevelReturnsFullTree(m, faults, path, Listing(m, path), 0, [], t + 1);
    }
  }

  lemma {:induction false} LevelReturnsFullTree(m: Objects, faults: set<nat>, path: string, es: seq<Entry>, i: nat, acc: seq<Node>, t: nat)
    requires i <= |es| && Descends(m, path, es)
    ensures LevelRun(m, faults, path, es, i, acc, t).result.Ok? ==>
      LevelRun(m, faults, path, es, i, acc, t).result.value == acc + FullLevel(m, path, es, i)
    decreases Height(m, path), 0, |es| - i, 1
  {
    if i < |es| {
      if es[i].id.None? {
        FolderReturnsFullTree(m, faults, path, es, i, acc, t);
      } else if t !in faults {
        var e := es[i];
        var node := File(e.name, FileSize(e), e.createdAt, PublicUrl(Child(path, e.name)));
        LevelReturnsFullTree(m, faults, path, es, i + 1, acc + [node], t + 1);
        assert acc + [node] + FullLevel(m, path, es, i + 1) == acc + FullLevel(m, path, es, i);
      }
    }
  }

  lemma {:induction false} FolderReturnsFullTree(m: Objects, faults: set<nat>, path: string, es: seq<Entry>, i: nat, acc: seq<Node>, t: nat)
    requires i < |es| && Descends(m, path, es) && es[i].id.None?
    ensures LevelRun(m, faults, path, es, i, acc, t).result.Ok? ==>
      LevelRun(m, faults, path, es, i, acc, t).result.value == acc + FullLevel(m, path, es, i)
    decreases Height(m, path), 0, |es| - i, 0
  {
    var here := Child(path, es[i].name);
    var sub := TraverseRun(m, faults, here, t);
    TraverseReturnsFullTree(m, faults, here, t);
    FolderStep(m, faults, path, es, i, acc, t);
    if sub.result.Ok? {
      var node := Folder(es[i].name, here + "/", sub.result.value);
      LevelReturnsFullTree(m, faults, path, es, i + 1, acc + [node], sub.clock);
      assert acc + [node] + FullLevel(m, path, es, i + 1) == acc + FullLevel(m, path, es, i);
    }
  }

  /** One folder entry of the loop: walk the folder, then go on. */
  lemma FolderStep(m: Objects, faults: set<nat>, path: string, es: seq<Entry>, i: nat, acc: seq<Node>, t: nat)
    requires i < |es| && Descends(m, path, es) && es[i].id.None?
    ensures var here := Child(path, es[i].name);
      var sub := TraverseRun(m, faults, here, t);
      && FullLevel(m, path, es, i) == [Folder(es[i].name, here + "/", FullTree(m, here))] + FullLevel(m, path, es, i + 1)
      && LevelRun(m, faults, path, es, i, acc, t) ==
        if sub.result.Err? then sub
        else LevelRun(m, faults, path, es, i + 1, acc + [Folder(es[i].name, here + "/", sub.result.value)], sub.clock)
  {
  }

  /** A walk fails exactly when one of its requests fails, and then its last
      request is the one that failed: any failed list or URL lookup, at any
      depth, aborts the whole walk. */
  lemma {:induction false} TraverseFailsOnFault(m: Objects, faults: set<nat>, path: string, t: nat)
    ensures var w := TraverseRun(m, faults, path, t);
      && t < w.clock
      && (w.result.Ok? <==> NoFault(faults, t, w.clock))
      && (w.result.Err? ==> LastFailed(faults, w.clock))
    decreases Height(m, path), 1, 0, 0
  {
    if t !in faults {
      TraverseUnfold(m, faults, path, t);
      LevelFailsOnFault(m, faults, path, Listing(m, path), 0, [], t + 1);
    }
  }

  lemma {:induction false} LevelFailsOnFault(m: Objects, faults: set<nat>, path: string, es: seq<Entry>, i: nat, acc: seq<Node>, t: nat)
    requires i <= |es| && Descends(m, path, es)
    ensures var w := LevelRun(m, faults, path, es, i, acc, t);
      && t <= w.clock
      && (w.result.Ok? <==> NoFault(faults, t, w.clock))
      && (w.result.Err? ==> t < w.clock && LastFailed(faults, w.clock))
    decreases Height(m, path), 0, |es| - i, 1
  {
    if i < |es| {
      if es[i].id.None? {
        FolderFailsOnFault(m, faults, path, es, i, acc, t);
      } else if t !in faults {
        var e := es[i];
        var node := File(e.name, FileSize(e), e.createdAt, PublicUrl(Child(path, e.name)));
        LevelFailsOnFault(m, faults, path, es, i + 1, acc + [node], t + 1);
      }
    }
  }

  lemma {:induction false} FolderFailsOnFault(m: Objects, faults: set<nat>, path: string, es: seq<Entry>, i: nat, acc: seq<Node>, t: nat)
    requires i < |es| && Descends(m, path, es) && es[i].id.None?
    ensures var w := LevelRun(m, faults, path, es, i, acc, t);
      && t <= w.clock
      && (w.result.Ok? <==> NoFault(faults, t, w.clock))
      && (w.result.Err? ==> t < w.clock && LastFailed(faults, w.clock))
    decreases Height(m, path), 0, |es| - i, 0
  {
    var e := es[i];
    var here := Child(path, e.name);
    var sub := TraverseRun(m, faults, here, t);
    TraverseFailsOnFault(m, faults, here, t);
    if sub.result.Ok? {
      var node := Folder(e.name, here + "/", sub.result.value);
      LevelFailsOnFault(m, faults, path, es, i + 1, acc + [node], sub.clock);
    }
  }

  /** With no failing request the walk returns the full tree. */
  lemma FaultFreeWalk(m: Objects, path: string, t: nat)
    ensures TraverseRun(m, {}, path, t).result == Ok(FullTree(m, path))
  {
    TraverseFailsOnFault(m, {}, path, t);
    TraverseReturnsFullTree(m, {}, path, t);
  }

  ghost predicate NodeFromEntry(m: Objects, path: string, n: Node, e: Entry) {
    var here := Child(path, e.name);
    && n.name == e.name
    && (n.Folder? <==> e.id.None?)
    && (n.Folder? ==> n.urlPath == here + "/" && n.children == FullTree(m, here))
    && (n.File? ==> n.size == FileSize(e) && n.createdAt == e.createdAt && n.url == PublicUrl(here))
  }

  lemma {:induction false} FullLevelAt(m: Objects, path: string, es: seq<Entry>, j: nat, i: nat)
    requires j <= i < |es| && Descends(m, path, es)
    ensures |FullLevel(m, path, es, j)| == |es| - j
    ensures NodeFromEntry(m, path, FullLevel(m, path, es, j)[i - j], es[i])
    decreases |es| - j
  {
    if j < i {
      FullLevelAt(m, path, es, j + 1, i);
    } else {
      FullLevelLength(m, path, es, j + 1);
    }
  }

  lemma {:induction false} FullLevelLength(m: Objects, path: string, es: seq<Entry>, j: nat)
    requires j <= |es| && Descends(m, path, es)
    ensures |FullLevel(m, path, es, j)| == |es| - j
    decreases |es| - j
  {
    if j < |es| {
      FullLevelLength(m, path, es, j + 1);
    }
  }

  /** Node `i` of the tree is built from entry `i` of the listing: the same
      name, a folder exactly when the entry has no id, a folder's urlPath is
      `path/name/` and its children are the tree of `path/name`, a file's
      size is `metadata.size` or 0 and its URL that of `path/name`. */
  lemma FullTreeShape(m: Objects, path: string)
    ensures |FullTree(m, path)| == |Listing(m, path)|
    ensures forall i :: 0 <= i < |Listing(m, path)| ==>
      NodeFromEntry(m, path, FullTree(m, path)[i], Listing(m, path)[i])
  {
    var es := Listing(m, path);
    ListingDescends(m, path);
    FullLevelLength(m, path, es, 0);
    forall i | 0 <= i < |es|
      ensures NodeFromEntry(m, path, FullTree(m, path)[i], es[i])
    {
      FullLevelAt(m, path, es, 0, i);
    }
  }

  /** Every file node, at every depth, has a size of at least 0. */
  ghost predicate SizesNonNegative(nodes: seq<Node>) {
    forall i :: 0 <= i < |nodes| ==>
      match nodes[i]
      case File(_, size, _, _) => size >= 0
      case Folder(_, _, children) => SizesNonNegative(children)
  }

  lemma {:induction false} FullTreeSizes(m: Objects, path: string)
    ensures SizesNonNegative(FullTree(m, path))
    decreases Height(m, path)
  {
    var es := Listing(m, path);
    var nodes := FullTree(m, path);
    FullTreeShape(m, path);
    ListingDescends(m, path);
    forall i | 0 <= i < |nodes|
      ensures match nodes[i]
        case File(_, size, _, _) => size >= 0
        case Folder(_, _, children) => SizesNonNegative(children)
    {
      var e := es[i];
      ListingMembership(m, path, e);
      if e.id.None? {
        FullTreeSizes(m, Child(path, e.name));
      }
    }
  }
}
