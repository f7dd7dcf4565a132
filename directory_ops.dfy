/** What `renameDirectory` and `deleteDirectory` do to the bucket, as
    functions of the bucket before the call, the failing requests and the
    number of requests issued before it. The store has no directory
    primitive: both are sequences of single-object requests. */
module DirectoryOps {
  import opened Outcomes
  import opened Listings
  import opened ObjectStore
  import opened Names

  /** The outcome of an operation, the bucket after it and the request
      count after it. */
  datatype Run = Run(status: Status, objects: Objects, clock: nat)

  /** Every name is a single path segment. */
  predicate PlainNames(es: seq<Entry>) {
    forall j :: 0 <= j < |es| ==> '/' !in es[j].name
  }

  predicate DistinctNames(es: seq<Entry>) {
    forall i, j :: 0 <= i < j < |es| ==> es[i].name != es[j].name
  }

  /** Listed names are single segments. */
  lemma ListingPlain(m: Objects, path: string)
    ensures PlainNames(Listing(m, path))
  {
    var es := Listing(m, path);
    forall j | 0 <= j < |es|
      ensures '/' !in es[j].name
    {
      ListingMembership(m, path, es[j]);
    }
  }

  /** The part of `s` after its last '/'. */
  function LastSegment(s: string): (r: string)
    ensures '/' !in r && |r| <= |s|
    decreases |s|
  {
    if s == [] || s[|s| - 1] == '/' then []
    else LastSegment(s[..|s| - 1]) + [s[|s| - 1]]
  }

  lemma {:induction false} LastSegmentOfChild(p: string, a: string)
    requires '/' !in a
    ensures LastSegment(Child(p, a)) == a
    decreases |a|
  {
    var s := Child(p, a);
    if a == [] {
      assert s[|s| - 1] == '/';
    } else {
      var a' := a[..|a| - 1];
      assert s[..|s| - 1] == Child(p, a');
      LastSegmentOfChild(p, a');
      assert a == a' + [a[|a| - 1]];
    }
  }

  /** `p/a` determines `p` and `a` when `a` is a single segment. */
  lemma ChildInjective(p: string, a: string, q: string, b: string)
    requires '/' !in a && '/' !in b && Child(p, a) == Child(q, b)
    ensures p == q && a == b
  {
    LastSegmentOfChild(p, a);
    LastSegmentOfChild(q, b);
    var s := Child(p, a);
    assert p == s[..|p|] == q;
  }

  // ---------------------------------------------------------------------
  // renameDirectory

  /** The bucket after moving `from/name` to `to/name` for each entry in
      order, or None when one of those moves is impossible. */
  function MovedAll(m: Objects, from: string, to: string, es: seq<Entry>): Option<Objects>
    decreases |es|
  {
    if es == [] then Some(m)
    else
      var src := Child(from, es[0].name);
      var dst := Child(to, es[0].name);
      if CanMove(m, src, dst) then MovedAll(Moved(m, src, dst), from, to, es[1..])
      else None
  }

  /** Every source is an object and no destination is taken. */
  ghost predicate MovesPossible(m: Objects, from: string, to: string, es: seq<Entry>) {
    forall j :: 0 <= j < |es| ==> Child(from, es[j].name) in m && Child(to, es[j].name) !in m
  }

  /** `k` is the source or the destination of one of the moves. */
  ghost predicate Touches(from: string, to: string, es: seq<Entry>, k: string) {
    exists j :: 0 <= j < |es| && (k == Child(from, es[j].name) || k == Child(to, es[j].name))
  }

  /** No entry of `es` is called `n`. */
  predicate Avoids(es: seq<Entry>, n: string) {
    forall j :: 0 <= j < |es| ==> es[j].name != n
  }

  lemma PlainTail(es: seq<Entry>)
    requires es != [] && PlainNames(es)
    ensures '/' !in es[0].name && PlainNames(es[1..])
  {
    forall j | 0 <= j < |es| - 1
      ensures '/' !in es[1..][j].name
    {
      assert es[1..][j] == es[j + 1];
    }
  }

  lemma DistinctTail(es: seq<Entry>)
    requires es != []
    ensures DistinctNames(es) <==> Avoids(es[1..], es[0].name) && DistinctNames(es[1..])
  {
    var rest := es[1..];
    if Avoids(rest, es[0].name) && DistinctNames(rest) {
      forall i, j | 0 <= i < j < |es|
        ensures es[i].name != es[j].name
      {
        assert es[j] == rest[j - 1];
        if i > 0 {
          assert es[i] == rest[i - 1];
        }
      }
    }
    if DistinctNames(es) {
      forall j | 0 <= j < |rest|
        ensures rest[j].name != es[0].name
      {
        assert rest[j] == es[j + 1];
      }
      forall i, j | 0 <= i < j < |rest|
        ensures rest[i].name != rest[j].name
      {
        assert rest[i] == es[i + 1] && rest[j] == es[j + 1];
      }
    }
  }

  lemma PossibleTail(m: Objects, from: string, to: string, es: seq<Entry>)
    requires es != []
    ensures MovesPossible(m, from, to, es) <==>
      CanMove(m, Child(from, es[0].name), Child(to, es[0].name)) && MovesPossible(m, from, to, es[1..])
  {
    var rest := es[1..];
    if MovesPossible(m, from, to, rest) {
      forall j | 0 < j < |es|
        ensures Child(from, es[j].name) in m && Child(to, es[j].name) !in m
      {
        assert es[j] == rest[j - 1];
      }
    }
    if MovesPossible(m, from, to, es) {
      forall j | 0 <= j < |rest|
        ensures Child(from, rest[j].name) in m && Child(to, rest[j].name) !in m
      {
        assert rest[j] == es[j + 1];
      }
    }
  }

  /** The keys of the first move are not those of any later move that
      names another entry. */
  lemma OtherMovesApart(from: string, to: string, n: string, rest: seq<Entry>)
    requires '/' !in n && PlainNames(rest) && from != to && Avoids(rest, n)
    ensures !Touches(from, to, rest, Child(from, n)) && !Touches(from, to, rest, Child(to, n))
  {
    if Touches(from, to, rest, Child(from, n)) {
      var j :| 0 <= j < |rest| && (Child(from, n) == Child(from, rest[j].name) || Child(from, n) == Child(to, rest[j].name));
      if Child(from, n) == Child(from, rest[j].name) {
        ChildInjective(from, n, from, rest[j].name);
      } else {
        ChildInjective(from, n, to, rest[j].name);
      }
    }
    if Touches(from, to, rest, Child(to, n)) {
      var j :| 0 <= j < |rest| && (Child(to, n) == Child(from, rest[j].name) || Child(to, n) == Child(to, rest[j].name));
      if Child(to, n) == Child(from, rest[j].name) {
        ChildInjective(to, n, from, rest[j].name);
      } else {
        ChildInjective(to, n, to, rest[j].name);
      }
    }
  }

  /** After the first move, the remaining moves see the same sources and
      free destinations as before it, provided they name other entries. */
  lemma MovesPossibleAfterMove(m: Objects, from: string, to: string, n: string, rest: seq<Entry>)
    requires '/' !in n && PlainNames(rest) && from != to
    requires CanMove(m, Child(from, n), Child(to, n))
    ensures MovesPossible(Moved(m, Child(from, n), Child(to, n)), from, to, rest) <==>
      Avoids(rest, n) && MovesPossible(m, from, to, rest)
  {
    var src := Child(from, n);
    var dst := Child(to, n);
    var m1 := Moved(m, src, dst);
    forall j | 0 <= j < |rest|
      ensures (Child(from, rest[j].name) in m1 && Child(to, rest[j].name) !in m1) <==>
        (rest[j].name != n && Child(from, rest[j].name) in m && Child(to, rest[j].name) !in m)
    {
      var y := rest[j].name;
      if Child(from, y) == dst {
        ChildInjective(from, y, to, n);
      }
      if Child(to, y) == src {
        ChildInjective(to, y, from, n);
      }
      if y != n {
        if Child(from, y) == src {
          ChildInjective(from, y, from, n);
        }
        if Child(to, y) == dst {
          ChildInjective(to, y, to, n);
        }
      }
    }
  }

  /** The moves of a sequence of entries all succeed exactly when every
      source is an object, no destination is taken and no name repeats. */
  lemma {:induction false} MovedAllSucceeds(m: Objects, from: string, to: string, es: seq<Entry>)
    requires PlainNames(es)
    ensures MovedAll(m, from, to, es).Some? <==> DistinctNames(es) && MovesPossible(m, from, to, es)
    decreases |es|
  {
    if es != [] {
      var n := es[0].name;
      PlainTail(es);
      DistinctTail(es);
      PossibleTail(m, from, to, es);
      if CanMove(m, Child(from, n), Child(to, n)) {
        MovesPossibleAfterMove(m, from, to, n, es[1..]);
        MovedAllSucceeds(Moved(m, Child(from, n), Child(to, n)), from, to, es[1..]);
      }
    }
  }

  /** What successful moves leave: each source is gone, each destination
      holds what its source held, and every other key is as it was. */
  ghost predicate MovedAs(m: Objects, r: Objects, from: string, to: string, es: seq<Entry>) {
    && (forall j :: 0 <= j < |es| ==>
          && Child(from, es[j].name) in m
          && Child(from, es[j].name) !in r
          && Child(to, es[j].name) in r
          && r[Child(to, es[j].name)] == m[Child(from, es[j].name)])
    && (forall k :: !Touches(from, to, es, k) ==> (k in r <==> k in m) && (k in r ==> r[k] == m[k]))
  }

  lemma {:induction false} MovedAllEffect(m: Objects, from: string, to: string, es: seq<Entry>)
    requires PlainNames(es) && MovedAll(m, from, to, es).Some?
    ensures MovedAs(m, MovedAll(m, from, to, es).value, from, to, es)
    decreases |es|
  {
    if es != [] {
      var n := es[0].name;
      var rest := es[1..];
      var src := Child(from, n);
      var dst := Child(to, n);
      var m1 := Moved(m, src, dst);
      var r := MovedAll(m, from, to, es).value;
      PlainTail(es);
      MovedAllSucceeds(m, from, to, es);
      DistinctTail(es);
      MovedAllEffect(m1, from, to, rest);
      OtherMovesApart(from, to, n, rest);
      forall j | 0 <= j < |es|
        ensures Child(from, es[j].name) !in r && Child(to, es[j].name) in r
        ensures r[Child(to, es[j].name)] == m[Child(from, es[j].name)]
      {
        if j > 0 {
          assert es[j] == rest[j - 1];
          OtherMovesApart(from, to, es[j].name, []);
          if Child(from, es[j].name) == dst {
            ChildInjective(from, es[j].name, to, n);
          }
          if Child(from, es[j].name) == src {
            ChildInjective(from, es[j].name, from, n);
          }
        }
      }
      forall k | !Touches(from, to, es, k)
        ensures (k in r <==> k in m) && (k in r ==> r[k] == m[k])
      {
        assert k != src && k != dst;
      }
    }
  }

  /** `renameDirectory`'s loop from entry `i` on: move `from/name` to
      `to/name`, stopping at the first move that fails. */
  function MoveEach(m: Objects, faults: set<nat>, t: nat, from: string, to: string, es: seq<Entry>, i: nat): (r: Run)
    requires i <= |es|
    ensures t <= r.clock <= t + (|es| - i)
    ensures r.status.Fail? ==> r.status.error.MoveEntryError? && t < r.clock
    decreases |es| - i
  {
    if i == |es| then Run(Pass, m, t)
    else
      var src := Child(from, es[i].name);
      var dst := Child(to, es[i].name);
      if t !in faults && CanMove(m, src, dst) then MoveEach(Moved(m, src, dst), faults, t + 1, from, to, es, i + 1)
      else Run(Fail(MoveEntryError(es[i].name)), m, t + 1)
  }

  /** `renameDirectory(from, to)` on already built prefixes: one list
      request, then one move per listed entry. */
  function RenameRun(m: Objects, faults: set<nat>, t: nat, from: string, to: string): (r: Run)
    ensures t < r.clock
    ensures r.status.Fail? ==> r.status.error.RenameListError? || r.status.error.MoveEntryError?
  {
    if t in faults then Run(Fail(RenameListError), m, t + 1)
    else MoveEach(m, faults, t + 1, from, to, Listing(m, from), 0)
  }

  lemma RenameUnfold(m: Objects, faults: set<nat>, t: nat, from: string, to: string)
    requires t !in faults
    ensures RenameRun(m, faults, t, from, to) == MoveEach(m, faults, t + 1, from, to, Listing(m, from), 0)
  {
  }

  /** One entry of the move loop. */
  lemma MoveStep(m: Objects, faults: set<nat>, t: nat, from: string, to: string, es: seq<Entry>, i: nat)
    requires i < |es|
    ensures var src := Child(from, es[i].name);
      var dst := Child(to, es[i].name);
      MoveEach(m, faults, t, from, to, es, i) ==
        if t !in faults && CanMove(m, src, dst) then MoveEach(Moved(m, src, dst), faults, t + 1, from, to, es, i + 1)
        else Run(Fail(MoveEntryError(es[i].name)), m, t + 1)
  {
  }

  /** The loop stopped at entry `k`: the error names it, the moves before it
      all happened and none after, and either its request failed or the
      move was impossible. */
  ghost predicate StoppedAt(m: Objects, faults: set<nat>, t: nat, from: string, to: string, es: seq<Entry>, i: nat, k: nat, r: Run)
    requires i <= k < |es|
  {
    && r.status == Fail(MoveEntryError(es[k].name))
    && r.clock == t + (k - i) + 1
    && NoFault(faults, t, t + (k - i))
    && MovedAll(m, from, to, es[i..k]) == Some(r.objects)
    && (LastFailed(faults, r.clock) || !CanMove(r.objects, Child(from, es[k].name), Child(to, es[k].name)))
  }

  /** The loop succeeds exactly when none of its requests fails and every
      move is possible, and then it has made all the moves. */
  lemma {:induction false} MoveEachPasses(m: Objects, faults: set<nat>, t: nat, from: string, to: string, es: seq<Entry>, i: nat)
    requires i <= |es|
    ensures var r := MoveEach(m, faults, t, from, to, es, i);
      && (r.status.Pass? <==> NoFault(faults, t, t + (|es| - i)) && MovedAll(m, from, to, es[i..]).Some?)
      && (r.status.Pass? ==> r.clock == t + (|es| - i) && MovedAll(m, from, to, es[i..]) == Some(r.objects))
    decreases |es| - i
  {
    if i < |es| {
      var src := Child(from, es[i].name);
      var dst := Child(to, es[i].name);
      assert es[i..][0] == es[i] && es[i..][1..] == es[i + 1..];
      if t !in faults && CanMove(m, src, dst) {
        MoveEachPasses(Moved(m, src, dst), faults, t + 1, from, to, es, i + 1);
      } else if t in faults {
        assert !NoFault(faults, t, t + (|es| - i));
      }
    }
  }

  /** A failing loop stops at one entry and makes no request after it. */
  lemma {:induction false} MoveEachStops(m: Objects, faults: set<nat>, t: nat, from: string, to: string, es: seq<Entry>, i: nat)
    requires i <= |es|
    ensures var r := MoveEach(m, faults, t, from, to, es, i);
      r.status.Fail? ==> exists k :: i <= k < |es| && StoppedAt(m, faults, t, from, to, es, i, k, r)
    decreases |es| - i
  {
    if i < |es| {
      var src := Child(from, es[i].name);
      var dst := Child(to, es[i].name);
      var r := MoveEach(m, faults, t, from, to, es, i);
      if t !in faults && CanMove(m, src, dst) {
        var m1 := Moved(m, src, dst);
        MoveEachStops(m1, faults, t + 1, from, to, es, i + 1);
        if r.status.Fail? {
          var k :| i + 1 <= k < |es| && StoppedAt(m1, faults, t + 1, from, to, es, i + 1, k, r);
          assert es[i..k][0] == es[i] && es[i..k][1..] == es[i + 1..k];
          assert StoppedAt(m, faults, t, from, to, es, i, k, r);
        }
      } else {
        assert es[i..i] == [];
        assert StoppedAt(m, faults, t, from, to, es, i, i, r) by {
          if t in faults {
            assert t + 1 == r.clock;
          }
        }
      }
    }
  }

  /** `renameDirectory` stopped at listed entry `k`. */
  ghost predicate RenameStopped(m: Objects, faults: set<nat>, t: nat, from: string, to: string, k: nat, r: Run) {
    var es := Listing(m, from);
    k < |es| && StoppedAt(m, faults, t + 1, from, to, es, 0, k, r)
  }

  /** `renameDirectory`: a failed list changes nothing; otherwise the
      listed entries are moved in listing order until one fails, the error
      naming it; the moves before it stay done (there is no rollback), and
      it succeeds exactly when no request fails and every move is
      possible. */
  lemma RenameOutcome(m: Objects, faults: set<nat>, t: nat, from: string, to: string)
    ensures var r := RenameRun(m, faults, t, from, to);
      var es := Listing(m, from);
      && (r.status == Fail(RenameListError) <==> t in faults)
      && (t in faults ==> r.objects == m && r.clock == t + 1)
      && (r.status.Pass? <==> NoFault(faults, t, t + 1 + |es|) && MovedAll(m, from, to, es).Some?)
      && (r.status.Pass? ==> r.clock == t + 1 + |es| && MovedAll(m, from, to, es) == Some(r.objects))
      && (r.status.Fail? && t !in faults ==> exists k :: RenameStopped(m, faults, t, from, to, k, r))
  {
    var es := Listing(m, from);
    assert es[0..] == es;
    MoveEachPasses(m, faults, t + 1, from, to, es, 0);
    MoveEachStops(m, faults, t + 1, from, to, es, 0);
    var r := RenameRun(m, faults, t, from, to);
    if t !in faults && r.status.Fail? {
      var k :| 0 <= k < |es| && StoppedAt(m, faults, t + 1, from, to, es, 0, k, r);
      assert RenameStopped(m, faults, t, from, to, k, r);
    }
  }

  /** A successful rename moved every listed entry: the listed names were
      all objects (so a sub-folder that is not also an object makes the
      rename fail), each now sits under `to` with its old content, and no
      other key changed. */
  lemma RenamePassMovesEveryEntry(m: Objects, faults: set<nat>, t: nat, from: string, to: string)
    ensures var r := RenameRun(m, faults, t, from, to);
      var es := Listing(m, from);
      r.status.Pass? ==> MovesPossible(m, from, to, es) && MovedAs(m, r.objects, from, to, es)
  {
    var es := Listing(m, from);
    RenameOutcome(m, faults, t, from, to);
    ListingPlain(m, from);
    var r := RenameRun(m, faults, t, from, to);
    if r.status.Pass? {
      MovedAllSucceeds(m, from, to, es);
      MovedAllEffect(m, from, to, es);
    }
  }

  // ---------------------------------------------------------------------
  // deleteDirectory

  /** Every key of `small` is in `m` with the same content. */
  ghost predicate Submap(small: Objects, m: Objects) {
    forall k :: k in small ==> k in m && small[k] == m[k]
  }

  /** A key under `path/name/` is under `path/`. */
  lemma InsideChild(path: string, n: string, k: string)
    requires Inside(Child(path, n), k)
    ensures Inside(path, k)
  {
    assert k[..|path| + 1] == (Child(path, n) + "/")[..|path| + 1];
  }

  /** The keys of entries `i` up to `k` of a listing of `path`. */
  function Removed(path: string, es: seq<Entry>, i: nat, k: nat): set<string>
    requires i <= k <= |es|
  {
    set j | i <= j < k :: Child(path, es[j].name)
  }

  /** The first loop of `deleteFilesRecursively` from entry `i` on: one
      remove request per listed entry, stopping at the first that fails. */
  function RemoveEach(m: Objects, faults: set<nat>, t: nat, path: string, es: seq<Entry>, i: nat): (r: Run)
    requires i <= |es|
    ensures Submap(r.objects, m)
    decreases |es| - i
  {
    if i == |es| then Run(Pass, m, t)
    else if t in faults then Run(Fail(DeleteEntryError(es[i].name)), m, t + 1)
    else RemoveEach(m - {Child(path, es[i].name)}, faults, t + 1, path, es, i + 1)
  }

  /** The remove loop stopped at entry `k`, the removes before it done. */
  ghost predicate RemoveStoppedAt(m: Objects, faults: set<nat>, t: nat, path: string, es: seq<Entry>, i: nat, k: nat, r: Run)
    requires i <= k < |es|
  {
    && r.status == Fail(DeleteEntryError(es[k].name))
    && r.clock == t + (k - i) + 1
    && NoFault(faults, t, t + (k - i))
    && LastFailed(faults, r.clock)
    && r.objects == m - Removed(path, es, i, k)
  }

  /** The remove loop removes the listed keys in order: it succeeds exactly
      when none of its requests fails, having removed them all; otherwise
      it stops at the first failing remove, naming that entry. */
  lemma {:induction false} RemoveEachEffect(m: Objects, faults: set<nat>, t: nat, path: string, es: seq<Entry>, i: nat)
    requires i <= |es|
    ensures var r := RemoveEach(m, faults, t, path, es, i);
      && (r.status.Pass? <==> NoFault(faults, t, t + (|es| - i)))
      && (r.status.Pass? ==> r.clock == t + (|es| - i) && r.objects == m - Removed(path, es, i, |es|))
      && (r.status.Fail? ==> exists k :: i <= k < |es| && RemoveStoppedAt(m, faults, t, path, es, i, k, r))
    decreases |es| - i
  {
    var r := RemoveEach(m, faults, t, path, es, i);
    if i == |es| {
      assert Removed(path, es, i, i) == {};
    } else if t in faults {
      assert Removed(path, es, i, i) == {};
      assert RemoveStoppedAt(m, faults, t, path, es, i, i, r);
    } else {
      var key := Child(path, es[i].name);
      RemoveEachEffect(m - {key}, faults, t + 1, path, es, i + 1);
      assert Removed(path, es, i, |es|) == {key} + Removed(path, es, i + 1, |es|);
      assert m - Removed(path, es, i, |es|) == m - {key} - Removed(path, es, i + 1, |es|);
      if r.status.Fail? {
        var k :| i + 1 <= k < |es| && RemoveStoppedAt(m - {key}, faults, t + 1, path, es, i + 1, k, r);
        assert Removed(path, es, i, k) == {key} + Removed(path, es, i + 1, k);
        assert m - Removed(path, es, i, k) == m - {key} - Removed(path, es, i + 1, k);
        assert RemoveStoppedAt(m, faults, t, path, es, i, k, r);
      }
    }
  }

  /** `deleteFilesRecursively(path)`: list `path`, then the two loops. */
  ghost function DeleteRun(m: Objects, faults: set<nat>, t: nat, path: string): (r: Run)
    ensures Submap(r.objects, m)
    decreases Height(m, path), 2, 0
  {
    if t in faults then Run(Fail(DeleteListError), m, t + 1)
    else
      ListingDescends(m, path);
      DeleteListed(m, faults, t + 1, path, Listing(m, path))
  }

  /** The two loops of `deleteFilesRecursively(path)` over the listing
      `es`: remove every listed entry in listing order, then recurse, in
      listing order, into every entry without an id. */
  ghost function DeleteListed(m: Objects, faults: set<nat>, t: nat, path: string, es: seq<Entry>): (r: Run)
    requires Descends(m, path, es)
    ensures Submap(r.objects, m)
    decreases Height(m, path), 1, 0
  {
    var r := RemoveEach(m, faults, t, path, es, 0);
    if r.status.Fail? then r
    else DescendEach(m, r.objects, faults, r.clock, path, es, 0)
  }

  /** The second loop of `deleteFilesRecursively(path)` from entry `i` on;
      `es` was listed when the bucket was `m0`, `m` is the bucket now. */
  ghost function DescendEach(m0: Objects, m: Objects, faults: set<nat>, t: nat, path: string, es: seq<Entry>, i: nat): (r: Run)
    requires i <= |es| && Descends(m0, path, es) && Submap(m, m0)
    ensures Submap(r.objects, m)
    decreases Height(m0, path), 0, |es| - i
  {
    if i == |es| then Run(Pass, m, t)
    else if es[i].id.Some? then DescendEach(m0, m, faults, t, path, es, i + 1)
    else
      var child := Child(path, es[i].name);
      HeightMonotone(m, m0, child);
      var sub := DeleteRun(m, faults, t, child);
      if sub.status.Fail? then sub
      else DescendEach(m0, sub.objects, faults, sub.clock, path, es, i + 1)
  }

  /** Past a successful list request, `deleteFilesRecursively` is its two
      loops over the listing. */
  lemma DeleteUnfold(m: Objects, faults: set<nat>, t: nat, path: string)
    requires t !in faults
    ensures Descends(m, path, Listing(m, path))
    ensures DeleteRun(m, faults, t, path) == DeleteListed(m, faults, t + 1, path, Listing(m, path))
  {
    ListingDescends(m, path);
  }

  /** One folder entry of the second loop: delete under it, then go on. */
  lemma DescendStep(m0: Objects, m: Objects, faults: set<nat>, t: nat, path: string, es: seq<Entry>, i: nat)
    requires i < |es| && Descends(m0, path, es) && Submap(m, m0) && es[i].id.None?
    ensures var sub := DeleteRun(m, faults, t, Child(path, es[i].name));
      DescendEach(m0, m, faults, t, path, es, i) ==
        if sub.status.Fail? then sub else DescendEach(m0, sub.objects, faults, sub.clock, path, es, i + 1)
  {
  }

  /** A file entry of the second loop is skipped. */
  lemma DescendSkip(m0: Objects, m: Objects, faults: set<nat>, t: nat, path: string, es: seq<Entry>, i: nat)
    requires i < |es| && Descends(m0, path, es) && Submap(m, m0) && es[i].id.Some?
    ensures DescendEach(m0, m, faults, t, path, es, i) == DescendEach(m0, m, faults, t, path, es, i + 1)
  {
  }

  /** The remove loop only removes keys under `path/`. */
  lemma {:induction false} RemoveEachKeepsOutside(m: Objects, faults: set<nat>, t: nat, path: string, es: seq<Entry>, i: nat)
    requires i <= |es|
    ensures forall k :: k in m && !Inside(path, k) ==> k in RemoveEach(m, faults, t, path, es, i).objects
    decreases |es| - i
  {
    if i < |es| && t !in faults {
      var key := Child(path, es[i].name);
      assert Inside(path, key) by {
        assert key[..|path| + 1] == path + "/";
      }
      RemoveEachKeepsOutside(m - {key}, faults, t + 1, path, es, i + 1);
    }
  }

  /** Deleting a directory keeps every key that is not under `path/`. */
  lemma {:induction false} DeleteKeepsOutside(m: Objects, faults: set<nat>, t: nat, path: string)
    ensures forall k :: k in m && !Inside(path, k) ==> k in DeleteRun(m, faults, t, path).objects
    decreases Height(m, path), 2, 0
  {
    if t !in faults {
      DeleteUnfold(m, faults, t, path);
      ListedKeepsOutside(m, faults, t + 1, path, Listing(m, path));
    }
  }

  lemma {:induction false} ListedKeepsOutside(m: Objects, faults: set<nat>, t: nat, path: string, es: seq<Entry>)
    requires Descends(m, path, es)
    ensures forall k :: k in m && !Inside(path, k) ==> k in DeleteListed(m, faults, t, path, es).objects
    decreases Height(m, path), 1, 0
  {
    RemoveEachKeepsOutside(m, faults, t, path, es, 0);
    var r := RemoveEach(m, faults, t, path, es, 0);
    if r.status.Pass? {
      DescendKeepsOutside(m, r.objects, faults, r.clock, path, es, 0);
    }
  }

  lemma {:induction false} DescendKeepsOutside(m0: Objects, m: Objects, faults: set<nat>, t: nat, path: string, es: seq<Entry>, i: nat)
    requires i <= |es| && Descends(m0, path, es) && Submap(m, m0)
    ensures forall k :: k in m && !Inside(path, k) ==> k in DescendEach(m0, m, faults, t, path, es, i).objects
    decreases Height(m0, path), 0, |es| - i
  {
    if i < |es| {
      if es[i].id.Some? {
        DescendKeepsOutside(m0, m, faults, t, path, es, i + 1);
      } else {
        var child := Child(path, es[i].name);
        HeightMonotone(m, m0, child);
        DescendStep(m0, m, faults, t, path, es, i);
        DeleteKeepsOutside(m, faults, t, child);
        var sub := DeleteRun(m, faults, t, child);
        forall k | k in m && !Inside(path, k)
          ensures k in sub.objects
        {
          if Inside(child, k) {
            InsideChild(path, es[i].name, k);
          }
        }
        if sub.status.Pass? {
          DescendKeepsOutside(m0, sub.objects, faults, sub.clock, path, es, i + 1);
        }
      }
    }
  }

  /** The request accounting of the remove loop. */
  lemma RemoveEachFaults(m: Objects, faults: set<nat>, t: nat, path: string, es: seq<Entry>)
    ensures var r := RemoveEach(m, faults, t, path, es, 0);
      && t <= r.clock
      && (r.status.Pass? <==> NoFault(faults, t, r.clock))
      && (r.status.Fail? ==> t < r.clock && LastFailed(faults, r.clock) && r.status.error.DeleteEntryError?)
  {
    RemoveEachEffect(m, faults, t, path, es, 0);
    var r := RemoveEach(m, faults, t, path, es, 0);
    if r.status.Fail? {
      var k :| 0 <= k < |es| && RemoveStoppedAt(m, faults, t, path, es, 0, k, r);
      assert !NoFault(faults, t, r.clock) by {
        var n :| n in faults && n + 1 == r.clock;
      }
    }
  }

  /** Deleting a directory fails exactly when one of its requests fails,
      and then the last request it made is the one that failed: a failed
      list or remove at any depth aborts the whole deletion. */
  lemma {:induction false} DeleteFailsOnFault(m: Objects, faults: set<nat>, t: nat, path: string)
    ensures var r := DeleteRun(m, faults, t, path);
      && t < r.clock
      && (r.status.Pass? <==> NoFault(faults, t, r.clock))
      && (r.status.Fail? ==> LastFailed(faults, r.clock))
      && (r.status.Fail? ==> r.status.error.DeleteListError? || r.status.error.DeleteEntryError?)
    decreases Height(m, path), 2, 0
  {
    if t !in faults {
      DeleteUnfold(m, faults, t, path);
      ListedFailsOnFault(m, faults, t + 1, path, Listing(m, path));
    }
  }

  lemma {:induction false} ListedFailsOnFault(m: Objects, faults: set<nat>, t: nat, path: string, es: seq<Entry>)
    requires Descends(m, path, es)
    ensures var r := DeleteListed(m, faults, t, path, es);
      && t <= r.clock
      && (r.status.Pass? <==> NoFault(faults, t, r.clock))
      && (r.status.Fail? ==> t < r.clock && LastFailed(faults, r.clock))
      && (r.status.Fail? ==> r.status.error.DeleteListError? || r.status.error.DeleteEntryError?)
    decreases Height(m, path), 1, 0
  {
    RemoveEachFaults(m, faults, t, path, es);
    var r := RemoveEach(m, faults, t, path, es, 0);
    if r.status.Pass? {
      DescendFailsOnFault(m, r.objects, faults, r.clock, path, es, 0);
    }
  }

  lemma {:induction false} DescendFailsOnFault(m0: Objects, m: Objects, faults: set<nat>, t: nat, path: string, es: seq<Entry>, i: nat)
    requires i <= |es| && Descends(m0, path, es) && Submap(m, m0)
    ensures var r := DescendEach(m0, m, faults, t, path, es, i);
      && t <= r.clock
      && (r.status.Pass? <==> NoFault(faults, t, r.clock))
      && (r.status.Fail? ==> t < r.clock && LastFailed(faults, r.clock))
      && (r.status.Fail? ==> r.status.error.DeleteListError? || r.status.error.DeleteEntryError?)
    decreases Height(m0, path), 0, |es| - i
  {
    if i < |es| {
      if es[i].id.Some? {
        DescendFailsOnFault(m0, m, faults, t, path, es, i + 1);
      } else {
        var child := Child(path, es[i].name);
        HeightMonotone(m, m0, child);
        DescendStep(m0, m, faults, t, path, es, i);
        DeleteFailsOnFault(m, faults, t, child);
        var sub := DeleteRun(m, faults, t, child);
        if sub.status.Pass? {
          DescendFailsOnFault(m0, sub.objects, faults, sub.clock, path, es, i + 1);
        }
      }
    }
  }

  /** A key under `path/` that survives neither the removes of the listed
      entries nor the deletions under the listed folders cannot exist. */
  lemma ClearedKey(m: Objects, path: string, r: Objects, k: string)
    requires Submap(r, m - Removed(path, Listing(m, path), 0, |Listing(m, path)|))
    requires forall j, k' :: 0 <= j < |Listing(m, path)| && Listing(m, path)[j].id.None? && k' in r ==>
      !Inside(Child(path, Listing(m, path)[j].name), k')
    requires k in r
    ensures !Inside(path, k)
  {
    if Inside(path, k) {
      KeyListed(m, path, k);
    }
  }

  /** A successful deletion leaves no key under `path/`, at any depth. */
  lemma {:induction false} DeleteClears(m: Objects, faults: set<nat>, t: nat, path: string)
    ensures var r := DeleteRun(m, faults, t, path);
      r.status.Pass? ==> forall k :: k in r.objects ==> !Inside(path, k)
    decreases Height(m, path), 2, 0
  {
    if t !in faults {
      DeleteUnfold(m, faults, t, path);
      ListedClears(m, faults, t + 1, path, Listing(m, path));
      var r := DeleteRun(m, faults, t, path);
      if r.status.Pass? {
        forall k | k in r.objects
          ensures !Inside(path, k)
        {
          ClearedKey(m, path, r.objects, k);
        }
      }
    }
  }

  /** The two loops over a listing remove the listed keys and clear
      everything under the listed folders. */
  lemma {:induction false} ListedClears(m: Objects, faults: set<nat>, t: nat, path: string, es: seq<Entry>)
    requires Descends(m, path, es)
    ensures var r := DeleteListed(m, faults, t, path, es);
      r.status.Pass? ==>
        && Submap(r.objects, m - Removed(path, es, 0, |es|))
        && forall j, k :: 0 <= j < |es| && es[j].id.None? && k in r.objects ==> !Inside(Child(path, es[j].name), k)
    decreases Height(m, path), 1, 0
  {
    RemoveEachEffect(m, faults, t, path, es, 0);
    var r1 := RemoveEach(m, faults, t, path, es, 0);
    if r1.status.Pass? {
      DescendClears(m, r1.objects, faults, r1.clock, path, es, 0);
    }
  }

  lemma {:induction false} DescendClears(m0: Objects, m: Objects, faults: set<nat>, t: nat, path: string, es: seq<Entry>, i: nat)
    requires i <= |es| && Descends(m0, path, es) && Submap(m, m0)
    ensures var r := DescendEach(m0, m, faults, t, path, es, i);
      r.status.Pass? ==> forall j, k :: i <= j < |es| && es[j].id.None? && k in r.objects ==>
        !Inside(Child(path, es[j].name), k)
    decreases Height(m0, path), 0, |es| - i
  {
    if i < |es| {
      if es[i].id.Some? {
        DescendSkip(m0, m, faults, t, path, es, i);
        DescendClears(m0, m, faults, t, path, es, i + 1);
      } else {
        var child := Child(path, es[i].name);
        HeightMonotone(m, m0, child);
        DescendStep(m0, m, faults, t, path, es, i);
        DeleteClears(m, faults, t, child);
        var sub := DeleteRun(m, faults, t, child);
        if sub.status.Pass? {
          DescendClears(m0, sub.objects, faults, sub.clock, path, es, i + 1);
        }
      }
    }
  }

  /** The outcome of `deleteDirectory`, and whether its closing re-list
      came back empty (which it only logs). */
  datatype Deletion = Deletion(run: Run, emptyAfter: bool)

  /** `deleteDirectory` on an already built prefix: the recursive deletion,
      then one more list request whose failure is an error and whose
      result is only reported. */
  ghost function DeleteDirectoryRun(m: Objects, faults: set<nat>, t: nat, path: string): (d: Deletion)
    ensures Submap(d.run.objects, m)
    ensures d.emptyAfter ==> d.run.status.Pass?
  {
    var r := DeleteRun(m, faults, t, path);
    if r.status.Fail? then Deletion(r, false)
    else if r.clock in faults then Deletion(Run(Fail(DeleteCheckError), r.objects, r.clock + 1), false)
    else Deletion(Run(Pass, r.objects, r.clock + 1), Listing(r.objects, path) == [])
  }

  /** `deleteDirectory` only removes keys, and only under `path/`; it
      succeeds exactly when none of its requests fails, and then nothing is
      left under `path/`, so the closing re-list is always empty; a failed
      re-list comes after a complete deletion. */
  lemma DeleteDirectoryOutcome(m: Objects, faults: set<nat>, t: nat, path: string)
    ensures var d := DeleteDirectoryRun(m, faults, t, path);
      && Submap(d.run.objects, m)
      && (forall k :: k in m && !Inside(path, k) ==> k in d.run.objects)
      && (d.run.status.Pass? <==> NoFault(faults, t, d.run.clock))
      && (d.run.status.Pass? ==> d.emptyAfter && forall k :: k in d.run.objects ==> !Inside(path, k))
      && (d.run.status == Fail(DeleteCheckError) ==>
            DeleteRun(m, faults, t, path).status.Pass? && d.run.objects == DeleteRun(m, faults, t, path).objects)
  {
    var r := DeleteRun(m, faults, t, path);
    DeleteKeepsOutside(m, faults, t, path);
    DeleteFailsOnFault(m, faults, t, path);
    DeleteClears(m, faults, t, path);
    if r.status.Pass? {
      ListingEmpty(r.objects, path);
      if r.clock in faults {
        assert !NoFault(faults, t, r.clock + 1);
      }
    }
  }
}
