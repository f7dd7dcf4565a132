/** The flat object store the storage manager runs against (one bucket), kept
    in memory. Every request may fail: requests are numbered in the order
    they are issued and `faults` names the ones that fail. */
module ObjectStore {
  import opened Outcomes
  import opened Listings

  /** The locator `getPublicUrl(key)` returns; its format is not modelled. */
  datatype Url = PublicUrl(key: string)

  /** `move` succeeds only when the source is an object and the destination
      is free. */
  predicate CanMove(m: Objects, from: string, to: string) {
    from in m && to !in m
  }

  /** The bucket after a successful `move(from, to)`. */
  function Moved(m: Objects, from: string, to: string): (r: Objects)
    requires CanMove(m, from, to)
    ensures to in r && r[to] == m[from] && from !in r
    ensures forall k :: k != from && k != to ==> (k in r <==> k in m) && (k in r ==> r[k] == m[k])
  {
    (m - {from})[to := m[from]]
  }

  /** Moving an object away and back restores the bucket exactly. */
  lemma MoveRoundTrip(m: Objects, a: string, b: string)
    requires CanMove(m, a, b)
    ensures CanMove(Moved(m, a, b), b, a)
    ensures Moved(Moved(m, a, b), b, a) == m
  {
    var back := Moved(Moved(m, a, b), b, a);
    assert back.Keys == m.Keys;
  }

  /** No request numbered in [from, to) fails. */
  predicate NoFault(faults: set<nat>, from: nat, to: nat) {
    forall n :: from <= n < to ==> n !in faults
  }

  /** The last of the first `to` requests is one that fails. */
  predicate LastFailed(faults: set<nat>, to: nat) {
    exists n :: n in faults && n + 1 == to
  }

  class Bucket {
    var objects: Objects
    /** The number of requests issued so far. */
    var clock: nat
    /** The numbers of the requests that fail. */
    const faults: set<nat>

    constructor (objects: Objects, faults: set<nat>)
      ensures this.objects == objects && this.faults == faults && clock == 0
    {
      this.objects := objects;
      this.faults := faults;
      clock := 0;
    }

    /** `list(prefix)` */
    method List(prefix: string) returns (r: Option<seq<Entry>>)
      modifies this`clock
      ensures clock == old(clock) + 1
      ensures r == if old(clock) in faults then None else Some(Listing(objects, prefix))
    {
      r := if clock in faults then None else Some(Listing(objects, prefix));
      clock := clock + 1;
    }

    /** `upload(key, bytes, { upsert })`: without upsert an existing object
        is not replaced and the request fails. */
    method Upload(key: string, bytes: seq<int>, upsert: bool) returns (ok: bool)
      modifies this
      ensures clock == old(clock) + 1
      ensures ok == (old(clock) !in faults && (upsert || key !in old(objects)))
      ensures objects == if ok then old(objects)[key := bytes] else old(objects)
    {
      ok := clock !in faults && (upsert || key !in objects);
      if ok {
        objects := objects[key := bytes];
      }
      clock := clock + 1;
    }

    /** `move(from, to)` */
    method Move(from: string, to: string) returns (ok: bool)
      modifies this
      ensures clock == old(clock) + 1
      ensures ok == (old(clock) !in faults && CanMove(old(objects), from, to))
      ensures objects == if ok then Moved(old(objects), from, to) else old(objects)
    {
      ok := clock !in faults && CanMove(objects, from, to);
      if ok {
        objects := Moved(objects, from, to);
      }
      clock := clock + 1;
    }

    /** `remove([key])`: removing a key that is not there succeeds. */
    method Remove(key: string) returns (ok: bool)
      modifies this
      ensures clock == old(clock) + 1
      ensures ok == (old(clock) !in faults)
      ensures objects == if ok then old(objects) - {key} else old(objects)
    {
      ok := clock !in faults;
      if ok {
        objects := objects - {key};
      }
      clock := clock + 1;
    }

    /** `download(key)` */
    method Download(key: string) returns (r: Option<seq<int>>)
      modifies this`clock
      ensures clock == old(clock) + 1
      ensures r == if old(clock) !in faults && key in objects then Some(objects[key]) else None
    {
      r := if clock !in faults && key in objects then Some(objects[key]) else None;
      clock := clock + 1;
    }

    /** `getPublicUrl(key)` */
    method GetPublicUrl(key: string) returns (r: Option<Url>)
      modifies this`clock
      ensures clock == old(clock) + 1
      ensures r == if old(clock) in faults then None else Some(PublicUrl(key))
    {
      r := if clock in faults then None else Some(PublicUrl(key));
      clock := clock + 1;
    }
  }
}
