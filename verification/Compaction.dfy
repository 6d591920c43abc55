/**
 * Compaction: the newest put of each key in a range of files is written to new files, the index is
 * pointed at them, and the files of the range are removed.
 */
module Compaction {
  import opened Bytes
  import opened Orders
  import opened Storage

  predicate InRange(l: Location, end: nat)
  {
    l.fileid <= end
  }

  // ----- Steps 2 and 3: which entries survive -----

  /** A later location of the range in the same bucket has the same key. */
  ghost predicate Superseded(files: Files, bucket: seq<Location>, end: nat, i: nat)
    requires AllExist(files, bucket) && i < |bucket|
  {
    exists j :: i < j < |bucket| && InRange(bucket[j], end)
      && EntryAt(files, bucket[j]).key == EntryAt(files, bucket[i]).key
  }

  /** A location of the range that is to be deleted. */
  ghost predicate DoomedAt(files: Files, bucket: seq<Location>, end: nat, i: nat)
    requires AllExist(files, bucket)
  {
    && i < |bucket| && InRange(bucket[i], end)
    && (Superseded(files, bucket, end, i) || EntryAt(files, bucket[i]).Delete?)
  }

  ghost predicate Doomed(files: Files, bucket: seq<Location>, end: nat, l: Location)
    requires AllExist(files, bucket)
  {
    exists i: nat :: DoomedAt(files, bucket, end, i) && bucket[i] == l
  }

  ghost predicate Seen(files: Files, bucket: seq<Location>, end: nat, lo: nat, key: Key)
    requires AllExist(files, bucket)
  {
    exists j: nat :: lo <= j < |bucket| && InRange(bucket[j], end) && EntryAt(files, bucket[j]).key == key
  }

  /** One bucket, from its newest location to its oldest; `seen` holds the keys encountered so far. */
  method ScanBucket(files: Files, bucket: seq<Location>, end: nat, seen0: set<Key>, deleted0: set<Location>,
                    fileids0: set<nat>)
    returns (seen: set<Key>, deleted: set<Location>, fileids: set<nat>)
    requires AllExist(files, bucket)
    requires forall i :: 0 <= i < |bucket| ==> EntryAt(files, bucket[i]).key !in seen0
    ensures forall k :: k in seen <==> k in seen0 || Seen(files, bucket, end, 0, k)
    ensures forall l :: l in deleted <==> l in deleted0 || Doomed(files, bucket, end, l)
    ensures forall f :: f in fileids <==> f in fileids0 || (f <= end && exists l :: l in bucket && l.fileid == f)
  {
    seen, deleted, fileids := seen0, deleted0, fileids0;
    var i := |bucket|;
    while i > 0
      invariant 0 <= i <= |bucket|
      invariant forall k :: k in seen <==> k in seen0 || Seen(files, bucket, end, i, k)
      invariant forall l :: l in deleted <==>
                  l in deleted0 || exists j: nat :: i <= j && DoomedAt(files, bucket, end, j) && bucket[j] == l
      invariant forall f :: f in fileids <==>
                  f in fileids0 || (f <= end && exists l :: l in bucket[i..] && l.fileid == f)
    {
      i := i - 1;
      var l := bucket[i];
      if l.fileid > end {
        continue;
      }
      fileids := fileids + {l.fileid};
      var entry := EntryAt(files, l);
      if entry.key !in seen {
        seen := seen + {entry.key};
        if entry.Delete? {
          deleted := deleted + {l};
        }
      } else {
        deleted := deleted + {l};
      }
    }
  }

  /** Every location of a bucket is that of an entry with its hash. */
  ghost predicate Sound(hash: Key -> nat, files: Files, index: Index<Location>)
  {
    forall h, i :: 0 <= i < |Bucket(index, h)| ==>
      Exists(files, Bucket(index, h)[i]) && hash(EntryAt(files, Bucket(index, h)[i]).key) == h
  }

  lemma IndexedIsSound(hash: Key -> nat, files: Files, ls: seq<Location>, index: Index<Location>)
    requires Indexed(hash, files, ls, index)
    ensures Sound(hash, files, index)
  {
    forall h, i | 0 <= i < |Bucket(index, h)|
      ensures Exists(files, Bucket(index, h)[i]) && hash(EntryAt(files, Bucket(index, h)[i]).key) == h
    {
      var ps := Where(hash, files, ls, h);
      assert Bucket(index, h) == InBucket(hash, files, ls, h);
      assert ps[i] in ps;
    }
  }

  /** The locations to delete and the files they are in, over the buckets of some hashes. */
  method DetermineLocations(hash: Key -> nat, files: Files, index: Index<Location>, hashes: seq<nat>, end: nat)
    returns (deleted: set<Location>, fileids: set<nat>)
    requires Sound(hash, files, index) && NoDuplicates(hashes)
    ensures Classified(hash, files, index, hashes, end, deleted)
    ensures forall f: nat :: f in fileids <==> f <= end && Pulled(index, hashes, f)
  {
    var seen: set<Key> := {};
    deleted, fileids := {}, {};
    var n := 0;
    while n < |hashes|
      invariant 0 <= n <= |hashes|
      invariant forall k :: k in seen ==> hash(k) in hashes[..n]
      invariant forall l :: l in deleted <==> exists h :: h in hashes[..n] && DoomedIn(files, index, end, h, l)
      invariant forall f: nat :: f in fileids <==> f <= end && Pulled(index, hashes[..n], f)
    {
      var h := hashes[n];
      var bucket := Bucket(index, h);
      assert h !in hashes[..n];
      assert AllExist(files, bucket);
      ghost var deleted0, fileids0 := deleted, fileids;
      seen, deleted, fileids := ScanBucket(files, bucket, end, seen, deleted, fileids);
      assert hashes[..n + 1] == hashes[..n] + [h];
      assert forall l :: Doomed(files, bucket, end, l) <==> DoomedIn(files, index, end, h, l);
      assert forall f: nat :: FileIn(index, h, f) <==> exists l :: l in bucket && l.fileid == f;
      n := n + 1;
    }
    assert hashes[..|hashes|] == hashes;
  }

  ghost predicate DoomedIn(files: Files, index: Index<Location>, end: nat, h: nat, l: Location)
  {
    AllExist(files, Bucket(index, h)) && Doomed(files, Bucket(index, h), end, l)
  }

  ghost predicate FileIn(index: Index<Location>, h: nat, f: nat)
  {
    exists l :: l in Bucket(index, h) && l.fileid == f
  }

  /** A location is that of the newest entry of the range for its key, and a put. */
  ghost predicate NewestPut(files: Files, ls: seq<Location>, end: nat, p: nat)
    requires AllExist(files, ls)
  {
    && p < |ls| && InRange(ls[p], end) && EntryAt(files, ls[p]).Put?
    && forall q :: p < q < |ls| && InRange(ls[q], end) ==> EntryAt(files, ls[q]).key != EntryAt(files, ls[p]).key
  }

  /** What steps 2 and 3 make of the range: everything is deleted but the newest puts. */
  ghost predicate Classified(hash: Key -> nat, files: Files, index: Index<Location>, hashes: seq<nat>, end: nat,
                             deleted: set<Location>)
  {
    forall l :: l in deleted <==> exists h :: h in hashes && DoomedIn(files, index, end, h, l)
  }

  /** A location of the range and the position it has in its bucket. */
  lemma InItsBucket(hash: Key -> nat, files: Files, ls: seq<Location>, index: Index<Location>, p: nat) returns (i: nat)
    requires Indexed(hash, files, ls, index) && p < |ls|
    ensures var ps := Where(hash, files, ls, hash(EntryAt(files, ls[p]).key));
            i < |ps| && ps[i] == p
  {
    var ps := Where(hash, files, ls, hash(EntryAt(files, ls[p]).key));
    assert p in ps;
    i :| 0 <= i < |ps| && ps[i] == p;
  }

  lemma BucketAt(hash: Key -> nat, files: Files, ls: seq<Location>, index: Index<Location>, h: nat, i: nat)
    requires Indexed(hash, files, ls, index) && i < |Bucket(index, h)|
    ensures var ps := Where(hash, files, ls, h);
            && |ps| == |Bucket(index, h)| && ps[i] < |ls|
            && Bucket(index, h)[i] == ls[ps[i]] && hash(EntryAt(files, ls[ps[i]]).key) == h
  {
    var ps := Where(hash, files, ls, h);
    assert Bucket(index, h) == InBucket(hash, files, ls, h);
    assert ps[i] in ps;
  }

  lemma OldIsDoomed(hash: Key -> nat, files: Files, ls: seq<Location>, index: Index<Location>, end: nat, p: nat)
    requires Indexed(hash, files, ls, index) && p < |ls| && InRange(ls[p], end) && !NewestPut(files, ls, end, p)
    ensures DoomedIn(files, index, end, hash(EntryAt(files, ls[p]).key), ls[p])
  {
    var h := hash(EntryAt(files, ls[p]).key);
    var ps, bucket := Where(hash, files, ls, h), Bucket(index, h);
    assert bucket == InBucket(hash, files, ls, h);
    IndexedIsSound(hash, files, ls, index);
    var i := InItsBucket(hash, files, ls, index, p);
    if EntryAt(files, ls[p]).Put? {
      var q :| p < q < |ls| && InRange(ls[q], end) && EntryAt(files, ls[q]).key == EntryAt(files, ls[p]).key;
      var j := InItsBucket(hash, files, ls, index, q);
      assert i < j;
      assert Superseded(files, bucket, end, i);
    }
    assert DoomedAt(files, bucket, end, i) && bucket[i] == ls[p];
  }

  lemma DoomedIsOld(hash: Key -> nat, files: Files, ls: seq<Location>, index: Index<Location>, end: nat, h: nat, p: nat)
    requires Indexed(hash, files, ls, index) && NoDuplicates(ls) && p < |ls|
    requires DoomedIn(files, index, end, h, ls[p])
    ensures !NewestPut(files, ls, end, p)
  {
    var ps, bucket := Where(hash, files, ls, h), Bucket(index, h);
    var i: nat :| DoomedAt(files, bucket, end, i) && bucket[i] == ls[p];
    BucketAt(hash, files, ls, index, h, i);
    assert ps[i] == p;
    if Superseded(files, bucket, end, i) {
      var j :| i < j < |bucket| && InRange(bucket[j], end)
        && EntryAt(files, bucket[j]).key == EntryAt(files, bucket[i]).key;
      BucketAt(hash, files, ls, index, h, j);
      assert p < ps[j];
    }
  }

  lemma Classify(hash: Key -> nat, files: Files, ls: seq<Location>, index: Index<Location>, hashes: seq<nat>, end: nat,
                 deleted: set<Location>, p: nat)
    requires Indexed(hash, files, ls, index) && NoDuplicates(ls) && p < |ls| && InRange(ls[p], end)
    requires hash(EntryAt(files, ls[p]).key) in hashes && Classified(hash, files, index, hashes, end, deleted)
    ensures ls[p] in deleted <==> !NewestPut(files, ls, end, p)
  {
    if !NewestPut(files, ls, end, p) {
      OldIsDoomed(hash, files, ls, index, end, p);
    }
    if ls[p] in deleted {
      var h :| h in hashes && DoomedIn(files, index, end, h, ls[p]);
      DoomedIsOld(hash, files, ls, index, end, h, p);
    }
  }

  // ----- Step 6: the orders to write -----

  function Undeleted(ls: seq<Location>, deleted: set<Location>): seq<Location>
    decreases |ls|
  {
    if ls == [] then []
    else
      var front, l := Undeleted(ls[..|ls| - 1], deleted), ls[|ls| - 1];
      if l in deleted then front else front + [l]
  }

  lemma {:induction false} UndeletedAre(ls: seq<Location>, deleted: set<Location>)
    ensures forall l :: l in Undeleted(ls, deleted) <==> l in ls && l !in deleted
    decreases |ls|
  {
    if ls != [] {
      UndeletedAre(ls[..|ls| - 1], deleted);
      assert ls == ls[..|ls| - 1] + [ls[|ls| - 1]];
    }
  }

  lemma {:induction false} UndeletedJoin(a: seq<Location>, b: seq<Location>, deleted: set<Location>)
    ensures Undeleted(a + b, deleted) == Undeleted(a, deleted) + Undeleted(b, deleted)
    decreases |b|
  {
    if b == [] {
      assert a + b == a;
    } else {
      assert (a + b)[..|a + b| - 1] == a + b[..|b| - 1];
      UndeletedJoin(a, b[..|b| - 1], deleted);
    }
  }

  /** Whatever is kept is written as a put. */
  function AsPut(o: Order): Order
  {
    match o
    case Put(_, _) => o
    case Delete(key) => Put(key, [])
  }

  ghost predicate PutsAt(files: Files, ls: seq<Location>, orders: seq<Order>)
  {
    && AllExist(files, ls) && |orders| == |ls|
    && forall i :: 0 <= i < |ls| ==> orders[i] == AsPut(EntryAt(files, ls[i]))
  }

  lemma PutsAtNext(files: Files, ls: seq<Location>, orders: seq<Order>, l: Location)
    requires PutsAt(files, ls, orders) && Exists(files, l)
    ensures PutsAt(files, ls + [l], orders + [AsPut(EntryAt(files, l))])
  {}

  /** The entries of one file that are kept. */
  method BuildFromFile(files: Files, id: nat, deleted: set<Location>, orders0: seq<Order>, ghost ls0: seq<Location>)
    returns (orders: seq<Order>)
    requires id in files && PutsAt(files, ls0, orders0)
    ensures PutsAt(files, ls0 + Undeleted(FileLocations(id, |files[id].entries|), deleted), orders)
  {
    orders := orders0;
    var entries := files[id].entries;
    assert ls0 + [] == ls0;
    for i := 0 to |entries|
      invariant PutsAt(files, ls0 + Undeleted(FileLocations(id, i), deleted), orders)
    {
      var l := Location(id, i);
      assert FileLocations(id, i + 1)[..i] == FileLocations(id, i);
      if l !in deleted {
        ghost var ls := ls0 + Undeleted(FileLocations(id, i), deleted);
        PutsAtNext(files, ls, orders, l);
        assert ls + [l] == ls0 + Undeleted(FileLocations(id, i + 1), deleted);
        orders := orders + [AsPut(entries[i])];
      }
    }
  }

  /** The timestamp that the new files get: the greatest of those of the range. */
  method MaximumTimestamp(files: Files, ids: seq<nat>) returns (timestamp: nat)
    requires AllIn(files, ids)
    ensures forall i :: 0 <= i < |ids| ==> files[ids[i]].timestamp <= timestamp
    ensures ids != [] ==> exists i :: 0 <= i < |ids| && files[ids[i]].timestamp == timestamp
  {
    timestamp := 0;
    for n := 0 to |ids|
      invariant forall i :: 0 <= i < n ==> files[ids[i]].timestamp <= timestamp
      invariant if n == 0 then timestamp == 0 else exists i :: 0 <= i < n && files[ids[i]].timestamp == timestamp
    {
      if files[ids[n]].timestamp > timestamp {
        timestamp := files[ids[n]].timestamp;
      }
    }
  }

  /** The list of orders that compaction writes. */
  method BuildOrders(files: Files, ids: seq<nat>, deleted: set<Location>) returns (orders: seq<Order>)
    requires AllIn(files, ids)
    ensures PutsAt(files, Undeleted(Locations(files, ids), deleted), orders)
  {
    orders := [];
    var n := 0;
    while n < |ids|
      invariant 0 <= n <= |ids| && AllIn(files, ids[..n])
      invariant PutsAt(files, Undeleted(Locations(files, ids[..n]), deleted), orders)
    {
      var id := ids[n];
      UndeletedJoin(Locations(files, ids[..n]), FileLocations(id, |files[id].entries|), deleted);
      assert ids[..n + 1][..n] == ids[..n];
      orders := BuildFromFile(files, id, deleted, orders, Undeleted(Locations(files, ids[..n]), deleted));
      n := n + 1;
    }
    assert ids[..|ids|] == ids;
  }

  /** The survivors are exactly the newest puts of a list of locations, each once. */
  ghost predicate AreSurvivors(files: Files, ls: seq<Location>, end: nat, survivors: seq<Location>)
    requires AllExist(files, ls)
  {
    && (forall i :: 0 <= i < |survivors| ==> SurvivesAt(files, ls, end, survivors[i]))
    && (forall p: nat :: NewestPut(files, ls, end, p) ==> ls[p] in survivors)
  }

  ghost predicate SurvivesAt(files: Files, ls: seq<Location>, end: nat, l: Location)
    requires AllExist(files, ls)
  {
    exists p: nat :: NewestPut(files, ls, end, p) && ls[p] == l
  }

  /** A survivor is the last entry of the range for its key. */
  lemma SurvivorIsLast(files: Files, ls: seq<Location>, end: nat, p: nat)
    requires AllExist(files, ls) && (forall i :: 0 <= i < |ls| ==> InRange(ls[i], end)) && NewestPut(files, ls, end, p)
    ensures LastOrder(OrdersAt(files, ls), EntryAt(files, ls[p]).key) == Some(p)
  {
    LastOrderIs(OrdersAt(files, ls), EntryAt(files, ls[p]).key, p);
  }

  /** The survivors of a range answer every lookup as the whole range does. */
  lemma SurvivorsAnswer(files: Files, ls: seq<Location>, end: nat, survivors: seq<Location>, key: Key)
    requires AllExist(files, ls) && AllExist(files, survivors) && AreSurvivors(files, ls, end, survivors)
    requires forall i :: 0 <= i < |ls| ==> InRange(ls[i], end)
    ensures Lookup(OrdersAt(files, survivors), key) == Lookup(OrdersAt(files, ls), key)
  {
    var all, kept := OrdersAt(files, ls), OrdersAt(files, survivors);
    var last, lastKept := LastOrder(all, key), LastOrder(kept, key);
    if last.Some? && all[last.value].Put? {
      assert NewestPut(files, ls, end, last.value);
      var i :| 0 <= i < |survivors| && survivors[i] == ls[last.value];
      assert kept[i].key == key;
    }
    if lastKept.Some? {
      assert SurvivesAt(files, ls, end, survivors[lastKept.value]);
      var p: nat :| NewestPut(files, ls, end, p) && ls[p] == survivors[lastKept.value];
      SurvivorIsLast(files, ls, end, p);
    }
  }

  // ----- Steps 7 to 10: the new files -----

  /** Two directories hold the same files under some ids. */
  ghost predicate Agree(a: Files, b: Files, ids: seq<nat>)
  {
    AllIn(a, ids) && AllIn(b, ids) && forall i :: 0 <= i < |ids| ==> a[ids[i]] == b[ids[i]]
  }

  lemma {:induction false} LocationsAgree(a: Files, b: Files, ids: seq<nat>)
    requires Agree(a, b, ids)
    ensures Locations(a, ids) == Locations(b, ids)
    ensures AllExist(a, Locations(a, ids)) && AllExist(b, Locations(b, ids))
    ensures OrdersAt(a, Locations(a, ids)) == OrdersAt(b, Locations(b, ids))
    decreases |ids|
  {
    LocationsAre(a, ids);
    LocationsAre(b, ids);
    if ids != [] {
      LocationsAgree(a, b, ids[..|ids| - 1]);
    }
    var ls := Locations(a, ids);
    assert forall i :: 0 <= i < |ls| ==> ls[i] in ls;
  }

  function Range(base: nat, n: nat): (ids: seq<nat>)
    ensures |ids| == n && forall i :: 0 <= i < n ==> ids[i] == base + 1 + i
  {
    seq(n, i requires 0 <= i < n => base + 1 + i)
  }

  /** New files after `base` with one timestamp. */
  ghost predicate NewFiles(out: Files, base: nat, n: nat, timestamp: nat)
  {
    && (forall id :: id in out <==> base < id <= base + n)
    && (forall id :: id in out ==> out[id].timestamp == timestamp)
  }

  /** Files with consecutive ids after `base`, all with one timestamp, that hold some orders in order. */
  ghost predicate Holds(out: Files, base: nat, n: nat, timestamp: nat, moved: seq<Location>, orders: seq<Order>)
  {
    && NewFiles(out, base, n, timestamp)
    && AllIn(out, Range(base, n)) && Locations(out, Range(base, n)) == moved
    && AllExist(out, moved) && OrdersAt(out, moved) == orders
  }

  /** Appending an order to the last file. */
  lemma HoldsMore(out: Files, base: nat, n: nat, timestamp: nat, moved: seq<Location>, orders: seq<Order>, o: Order)
    requires Holds(out, base, n, timestamp, moved, orders) && n > 0
    ensures var id := base + n;
            var file := out[id];
            Holds(out[id := File(timestamp, file.entries + [o])], base, n, timestamp,
                  moved + [Location(id, |file.entries|)], orders + [o])
  {
    var id := base + n;
    var entries := out[id].entries;
    var out', front := out[id := File(timestamp, entries + [o])], Range(base, n - 1);
    var l := Location(id, |entries|);
    assert Range(base, n)[..n - 1] == front;
    LocationsAgree(out, out', front);
    assert FileLocations(id, |entries| + 1) == FileLocations(id, |entries|) + [l];
    assert Locations(out', Range(base, n)) == moved + [l];
    LocationsAre(out', Range(base, n));
  }

  lemma HoldsNewFile(out: Files, base: nat, n: nat, timestamp: nat, moved: seq<Location>, orders: seq<Order>)
    requires Holds(out, base, n, timestamp, moved, orders)
    ensures Holds(out[base + n + 1 := File(timestamp, [])], base, n + 1, timestamp, moved, orders)
  {
    var out', ids := out[base + n + 1 := File(timestamp, [])], Range(base, n + 1);
    assert ids[..n] == Range(base, n);
    LocationsAgree(out, out', Range(base, n));
    assert moved + FileLocations(base + n + 1, 0) == moved;
  }

  /** An order goes to the last file, or to a new one; `full` tells when a file takes no more. */
  method WriteOne(out0: Files, n0: nat, timestamp: nat, base: nat, full: seq<Order> -> bool, o: Order,
                  ghost moved: seq<Location>, ghost orders: seq<Order>)
    returns (out: Files, n: nat, l: Location)
    requires Holds(out0, base, n0, timestamp, moved, orders)
    ensures Holds(out, base, n, timestamp, moved + [l], orders + [o])
  {
    out, n := out0, n0;
    if n == 0 || full(out[base + n].entries) {
      HoldsNewFile(out, base, n, timestamp, moved, orders);
      n := n + 1;
      out := out[base + n := File(timestamp, [])];
    }
    HoldsMore(out, base, n, timestamp, moved, orders, o);
    var entries := out[base + n].entries;
    l := Location(base + n, |entries|);
    out := out[base + n := File(timestamp, entries + [o])];
  }

  /** The orders are written to new files. */
  method WriteFiles(orders: seq<Order>, timestamp: nat, base: nat, full: seq<Order> -> bool)
    returns (out: Files, n: nat, moved: seq<Location>)
    ensures Holds(out, base, n, timestamp, moved, orders) && (orders == [] ==> n == 0)
  {
    out, n, moved := map[], 0, [];
    var i := 0;
    while i < |orders|
      invariant 0 <= i <= |orders| && Holds(out, base, n, timestamp, moved, orders[..i]) && (i == 0 ==> n == 0)
    {
      var l;
      out, n, l := WriteOne(out, n, timestamp, base, full, orders[i], moved, orders[..i]);
      assert orders[..i] + [orders[i]] == orders[..i + 1];
      moved := moved + [l];
      i := i + 1;
    }
    assert orders[..|orders|] == orders;
  }

  // ----- Step 12: the index -----

  /** The locations of a bucket outside the range, in order. */
  function After(bucket: seq<Location>, end: nat): seq<Location>
    decreases |bucket|
  {
    if bucket == [] then []
    else
      var front, l := After(bucket[..|bucket| - 1], end), bucket[|bucket| - 1];
      if InRange(l, end) then front else front + [l]
  }

  lemma {:induction false} AfterAre(bucket: seq<Location>, end: nat)
    ensures forall l :: l in After(bucket, end) <==> l in bucket && !InRange(l, end)
    decreases |bucket|
  {
    if bucket != [] {
      AfterAre(bucket[..|bucket| - 1], end);
      assert bucket == bucket[..|bucket| - 1] + [bucket[|bucket| - 1]];
    }
  }

  lemma {:induction false} AfterNone(bucket: seq<Location>, end: nat)
    requires forall i :: 0 <= i < |bucket| ==> InRange(bucket[i], end)
    ensures After(bucket, end) == []
    decreases |bucket|
  {
    if bucket != [] {
      AfterNone(bucket[..|bucket| - 1], end);
    }
  }

  lemma {:induction false} AfterJoin(a: seq<Location>, b: seq<Location>, end: nat)
    ensures After(a + b, end) == After(a, end) + After(b, end)
    decreases |b|
  {
    if b == [] {
      assert a + b == a;
    } else {
      assert (a + b)[..|a + b| - 1] == a + b[..|b| - 1];
      AfterJoin(a, b[..|b| - 1], end);
    }
  }

  lemma {:induction false} AfterAll(bucket: seq<Location>, end: nat)
    requires forall l :: l in bucket ==> !InRange(l, end)
    ensures After(bucket, end) == bucket
    decreases |bucket|
  {
    if bucket != [] {
      assert Last(bucket) in bucket;
      AfterAll(bucket[..|bucket| - 1], end);
    }
  }

  function Last<T>(s: seq<T>): T
    requires s != []
  {
    s[|s| - 1]
  }

  lemma LastAfter(bucket: seq<Location>, end: nat)
    requires bucket != [] && !InRange(Last(bucket), end)
    ensures After(bucket, end) != [] && Last(After(bucket, end)) == Last(bucket)
  {}

  method LocationsAfter(bucket: seq<Location>, end: nat) returns (after: seq<Location>)
    ensures after == After(bucket, end)
  {
    after := [];
    for i := 0 to |bucket|
      invariant after == After(bucket[..i], end)
    {
      assert bucket[..i + 1][..i] == bucket[..i];
      if !InRange(bucket[i], end) {
        after := after + [bucket[i]];
      }
    }
    assert bucket[..|bucket|] == bucket;
  }

  ghost function Hashes(hash: Key -> nat, orders: seq<Order>): set<nat>
  {
    set i | 0 <= i < |orders| :: hash(orders[i].key)
  }

  /** The new locations of the orders with a hash, in order. */
  ghost function NewLocations(hash: Key -> nat, orders: seq<Order>, moved: seq<Location>, h: nat): seq<Location>
    requires |orders| == |moved|
  {
    var ps := Positions(hash, orders, h, 0, |orders|);
    PositionsAre(hash, orders, h, 0, |orders|);
    assert forall i :: 0 <= i < |ps| ==> ps[i] in ps;
    Pick(moved, ps)
  }

  lemma NewLocationsSnoc(hash: Key -> nat, orders: seq<Order>, moved: seq<Location>, o: Order, l: Location, h: nat)
    requires |orders| == |moved|
    ensures NewLocations(hash, orders + [o], moved + [l], h)
         == NewLocations(hash, orders, moved, h) + if hash(o.key) == h then [l] else []
  {
    var ps := Positions(hash, orders, h, 0, |orders|);
    PositionsPrefix(hash, orders, [o], h, |orders|);
    PositionsAre(hash, orders, h, 0, |orders|);
    assert forall i :: 0 <= i < |ps| ==> ps[i] in ps;
  }

  /** The last order with a hash. */
  ghost predicate LastWith(hash: Key -> nat, orders: seq<Order>, h: nat, j: nat)
  {
    j < |orders| && hash(orders[j].key) == h && forall i :: j < i < |orders| ==> hash(orders[i].key) != h
  }

  /** The new locations with a hash end with that of the last order with it. */
  lemma LastNew(hash: Key -> nat, orders: seq<Order>, moved: seq<Location>, h: nat) returns (j: nat)
    requires |orders| == |moved| && h in Hashes(hash, orders)
    ensures LastWith(hash, orders, h, j)
    ensures NewLocations(hash, orders, moved, h) != [] && Last(NewLocations(hash, orders, moved, h)) == moved[j]
  {
    var ps := Positions(hash, orders, h, 0, |orders|);
    PositionsAre(hash, orders, h, 0, |orders|);
    var i :| 0 <= i < |orders| && hash(orders[i].key) == h;
    assert i in ps;
    j := ps[|ps| - 1];
    assert j in ps && forall q :: q in ps ==> q <= j;
    assert forall q :: j < q < |orders| ==> q !in ps;
  }

  lemma NewAreMoved(hash: Key -> nat, orders: seq<Order>, moved: seq<Location>, h: nat)
    requires |orders| == |moved|
    ensures forall l :: l in NewLocations(hash, orders, moved, h) ==> l in moved
  {
    var ps := Positions(hash, orders, h, 0, |orders|);
    PositionsAre(hash, orders, h, 0, |orders|);
    assert forall i :: 0 <= i < |ps| ==> ps[i] in ps;
  }

  /** Step 10: the index of the new locations. */
  method ShiftLocations(hash: Key -> nat, orders: seq<Order>, moved: seq<Location>) returns (shifted: Index<Location>)
    requires |orders| == |moved|
    ensures forall h :: Bucket(shifted, h) == NewLocations(hash, orders, moved, h)
    ensures shifted.Keys == Hashes(hash, orders)
  {
    shifted := map[];
    for i := 0 to |orders|
      invariant forall h :: Bucket(shifted, h) == NewLocations(hash, orders[..i], moved[..i], h)
      invariant shifted.Keys == Hashes(hash, orders[..i])
    {
      forall h
        ensures NewLocations(hash, orders[..i + 1], moved[..i + 1], h)
             == NewLocations(hash, orders[..i], moved[..i], h) + if hash(orders[i].key) == h then [moved[i]] else []
      {
        assert orders[..i + 1] == orders[..i] + [orders[i]] && moved[..i + 1] == moved[..i] + [moved[i]];
        NewLocationsSnoc(hash, orders[..i], moved[..i], orders[i], moved[i], h);
      }
      assert Hashes(hash, orders[..i + 1]) == Hashes(hash, orders[..i]) + {hash(orders[i].key)};
      shifted := Insert(shifted, hash(orders[i].key), moved[i]);
    }
    assert orders[..|orders|] == orders && moved[..|moved|] == moved;
  }

  /** The state of the index once the buckets of some hashes have been rewritten. */
  ghost predicate Updated(hash: Key -> nat, index0: Index<Location>, orders: seq<Order>, moved: seq<Location>, end: nat,
                          done: set<nat>, index: Index<Location>)
  {
    && |orders| == |moved| && done <= Hashes(hash, orders)
    && forall h :: Bucket(index, h)
                == if h in done then NewLocations(hash, orders, moved, h) + After(Bucket(index0, h), end)
                   else Bucket(index0, h)
  }

  /** The bucket of one more hash. */
  lemma UpdatedNext(hash: Key -> nat, index0: Index<Location>, orders: seq<Order>, moved: seq<Location>, end: nat,
                    done: set<nat>, index: Index<Location>, h: nat, bucket: seq<Location>)
    requires Updated(hash, index0, orders, moved, end, done, index) && h in Hashes(hash, orders) && h !in done
    requires bucket == NewLocations(hash, orders, moved, h) + After(Bucket(index, h), end)
    ensures Updated(hash, index0, orders, moved, end, done + {h}, index[h := bucket])
  {
    assert Bucket(index, h) == Bucket(index0, h);
    forall g
      ensures Bucket(index[h := bucket], g)
           == if g in done + {h} then NewLocations(hash, orders, moved, g) + After(Bucket(index0, g), end)
              else Bucket(index0, g)
    {
      assert g != h ==> Bucket(index[h := bucket], g) == Bucket(index, g);
    }
  }

  method UpdateBucket(index1: Index<Location>, h: nat, news: seq<Location>, end: nat, ghost hash: Key -> nat,
                      ghost index0: Index<Location>, ghost orders: seq<Order>, ghost moved: seq<Location>,
                      ghost done: set<nat>)
    returns (index: Index<Location>)
    requires Updated(hash, index0, orders, moved, end, done, index1) && h in Hashes(hash, orders) && h !in done
    requires news == NewLocations(hash, orders, moved, h)
    ensures Updated(hash, index0, orders, moved, end, done + {h}, index)
  {
    var after := LocationsAfter(Bucket(index1, h), end);
    UpdatedNext(hash, index0, orders, moved, end, done, index1, h, news + after);
    index := index1[h := news + after];
  }

  /** A set in two parts: what is done, and what is left. */
  ghost predicate Parted(done: set<nat>, left: set<nat>, all: set<nat>)
  {
    done !! left && forall h :: h in all <==> h in done || h in left
  }

  lemma PartedNext(done: set<nat>, left: set<nat>, all: set<nat>, h: nat)
    requires Parted(done, left, all) && h in left
    ensures Parted(done + {h}, left - {h}, all)
  {}

  method UpdateIndex(hash: Key -> nat, index0: Index<Location>, orders: seq<Order>, moved: seq<Location>, end: nat)
    returns (index: Index<Location>)
    requires |orders| == |moved|
    ensures Updated(hash, index0, orders, moved, end, Hashes(hash, orders), index)
  {
    var shifted := ShiftLocations(hash, orders, moved);
    index := index0;
    var left := shifted.Keys;
    ghost var done: set<nat> := {};
    while left != {}
      invariant Parted(done, left, Hashes(hash, orders))
      invariant Updated(hash, index0, orders, moved, end, done, index)
      decreases |left|
    {
      var h :| h in left;
      index := UpdateBucket(index, h, Bucket(shifted, h), end, hash, index0, orders, moved, done);
      PartedNext(done, left, Hashes(hash, orders), h);
      left, done := left - {h}, done + {h};
    }
  }

  // ----- Lookups while compaction runs, and after it -----

  /** Every file outside the range is newer than every file inside. */
  ghost predicate Newer(files: Files, end: nat)
  {
    forall a, b :: a in files && b in files && a <= end < b ==> files[a].timestamp < files[b].timestamp
  }

  ghost predicate Scope(hash: Key -> nat, keys: set<Key>, files: Files, ids: seq<nat>, index: Index<Location>, end: nat)
  {
    && ReplayOrder(files, ids) && Indexed(hash, files, Locations(files, ids), index)
    && KeysIn(files, keys) && Distinct(hash, keys) && Newer(files, end)
  }

  /** What compaction writes: the survivors' orders, at new locations. */
  ghost predicate Kept(files: Files, ids: seq<nat>, end: nat, survivors: seq<Location>, orders: seq<Order>)
  {
    && AllIn(files, ids) && AllExist(files, Locations(files, ids)) && AllExist(files, survivors)
    && AreSurvivors(files, Locations(files, ids), end, survivors)
    && orders == OrdersAt(files, survivors)
  }

  /** A directory that has what another has, and the new files. */
  ghost predicate Extends(files2: Files, files: Files, moved: seq<Location>, orders: seq<Order>)
  {
    && |moved| == |orders|
    && (forall l :: Exists(files, l) ==> Exists(files2, l) && EntryAt(files2, l) == EntryAt(files, l))
    && (forall i :: 0 <= i < |moved| ==> Exists(files2, moved[i]) && EntryAt(files2, moved[i]) == orders[i])
  }

  /** In replay order, the range comes first. */
  lemma RangeFirst(files: Files, ids: seq<nat>, end: nat) returns (n: nat)
    requires Sorted(files, ids) && Newer(files, end)
    ensures n <= |ids| && (forall i :: 0 <= i < n ==> ids[i] <= end) && (forall i :: n <= i < |ids| ==> ids[i] > end)
  {
    n := 0;
    while n < |ids| && ids[n] <= end
      invariant n <= |ids| && forall i :: 0 <= i < n ==> ids[i] <= end
    {
      n := n + 1;
    }
    forall i | n <= i < |ids|
      ensures ids[i] > end
    {
      assert i > n ==> Before(files, ids[n], ids[i]);
    }
  }

  /** The replay, cut where the range ends. */
  lemma ReplayCut(files: Files, ids: seq<nat>, end: nat) returns (n: nat, inside: seq<Location>, outside: seq<Location>)
    requires Sorted(files, ids) && Newer(files, end)
    ensures n <= |ids| && AllIn(files, ids[..n]) && AllIn(files, ids[n..])
    ensures inside == Locations(files, ids[..n]) && outside == Locations(files, ids[n..])
    ensures Locations(files, ids) == inside + outside && AllExist(files, inside + outside)
    ensures forall i :: 0 <= i < |inside| ==> InRange(inside[i], end)
    ensures forall i :: 0 <= i < |outside| ==> !InRange(outside[i], end)
    ensures CutAt(ids, end, n)
  {
    n := RangeFirst(files, ids, end);
    assert ids == ids[..n] + ids[n..];
    inside, outside := Locations(files, ids[..n]), Locations(files, ids[n..]);
    LocationsJoin(files, ids[..n], ids[n..]);
    LocationsAre(files, ids);
    LocationsAre(files, ids[..n]);
    LocationsAre(files, ids[n..]);
    assert forall i :: 0 <= i < |inside| ==> inside[i] in inside;
    assert forall i :: 0 <= i < |outside| ==> outside[i] in outside;
  }

  /** The last location of a bucket is the last entry for its key in the replay. */
  lemma BucketLast(hash: Key -> nat, keys: set<Key>, files: Files, ls: seq<Location>, index: Index<Location>, key: Key)
    returns (p: nat)
    requires Indexed(hash, files, ls, index) && KeysIn(files, keys) && Distinct(hash, keys) && key in keys
    requires Bucket(index, hash(key)) != []
    ensures p < |ls| && ls[p] == Last(Bucket(index, hash(key))) && EntryAt(files, ls[p]).key == key
    ensures forall q :: p < q < |ls| ==> EntryAt(files, ls[q]).key != key
  {
    var h := hash(key);
    var ps := Where(hash, files, ls, h);
    BucketAt(hash, files, ls, index, h, |ps| - 1);
    p := ps[|ps| - 1];
    assert forall q :: q in ps ==> q <= p;
    assert forall q :: p < q < |ls| ==> q !in ps;
  }

  /** In a bucket, too, the range comes first. */
  lemma BucketCut(hash: Key -> nat, keys: set<Key>, files: Files, ids: seq<nat>, index: Index<Location>, end: nat,
                  h: nat)
    requires Scope(hash, keys, files, ids, index, end)
    requires Bucket(index, h) != [] && InRange(Last(Bucket(index, h)), end)
    ensures After(Bucket(index, h), end) == []
  {
    var n, inside, outside := ReplayCut(files, ids, end);
    var ls, bucket := inside + outside, Bucket(index, h);
    var ps := Where(hash, files, ls, h);
    BucketAt(hash, files, ls, index, h, |bucket| - 1);
    forall i | 0 <= i < |bucket|
      ensures InRange(bucket[i], end)
    {
      BucketAt(hash, files, ls, index, h, i);
      assert ps[i] <= ps[|bucket| - 1];
    }
    AfterNone(bucket, end);
  }

  /** A bucket that ends inside the range ends with its survivor, unless that is a delete. */
  lemma LastSurvives(hash: Key -> nat, keys: set<Key>, files: Files, ids: seq<nat>, index: Index<Location>, end: nat,
                     survivors: seq<Location>, orders: seq<Order>, key: Key)
    requires Scope(hash, keys, files, ids, index, end) && Kept(files, ids, end, survivors, orders) && key in keys
    requires Bucket(index, hash(key)) != [] && InRange(Last(Bucket(index, hash(key))), end)
    ensures Exists(files, Last(Bucket(index, hash(key))))
    ensures var last := EntryAt(files, Last(Bucket(index, hash(key))));
            && last.key == key
            && (last.Put? ==> exists i :: 0 <= i < |orders| && orders[i] == last)
            && (forall i :: 0 <= i < |orders| && orders[i].key == key ==> orders[i] == last && last.Put?)
  {
    var ls := Locations(files, ids);
    var p := BucketLast(hash, keys, files, ls, index, key);
    var last := EntryAt(files, ls[p]);
    if last.Put? {
      assert NewestPut(files, ls, end, p);
      var i :| 0 <= i < |survivors| && survivors[i] == ls[p];
      assert orders[i] == last;
    }
    forall i | 0 <= i < |orders| && orders[i].key == key
      ensures orders[i] == last && last.Put?
    {
      assert SurvivesAt(files, ls, end, survivors[i]);
      var q: nat :| NewestPut(files, ls, end, q) && ls[q] == survivors[i];
      assert q == p;
    }
  }

  lemma OrdersKeysIn(files: Files, keys: set<Key>, survivors: seq<Location>, orders: seq<Order>, i: nat)
    requires KeysIn(files, keys) && AllExist(files, survivors) && orders == OrdersAt(files, survivors) && i < |orders|
    ensures orders[i].key in keys
  {}

  /** What a bucket ends with at any point of step 12. */
  lemma UpdatedLast(hash: Key -> nat, keys: set<Key>, files: Files, ids: seq<nat>, index: Index<Location>, end: nat,
                    survivors: seq<Location>, orders: seq<Order>, moved: seq<Location>, done: set<nat>,
                    index': Index<Location>, key: Key)
    requires Scope(hash, keys, files, ids, index, end) && Kept(files, ids, end, survivors, orders) && key in keys
    requires Updated(hash, index, orders, moved, end, done, index')
    requires Bucket(index, hash(key)) != []
    ensures Bucket(index', hash(key)) != []
    ensures var last, last' := Last(Bucket(index, hash(key))), Last(Bucket(index', hash(key)));
            || last' == last
            || (InRange(last, end) && exists i :: 0 <= i < |orders| && orders[i].key == key && last' == moved[i])
  {
    var h := hash(key);
    var bucket := Bucket(index, h);
    if h in done {
      var j := LastNew(hash, orders, moved, h);
      OrdersKeysIn(files, keys, survivors, orders, j);
      assert orders[j].key == key;
      if InRange(Last(bucket), end) {
        BucketCut(hash, keys, files, ids, index, end, h);
        assert Bucket(index', h) == NewLocations(hash, orders, moved, h);
      } else {
        LastAfter(bucket, end);
      }
    }
  }

  /** What a bucket ends with at any point of step 12 reads like what it ended with before. */
  lemma UpdatedReads(hash: Key -> nat, keys: set<Key>, files: Files, ids: seq<nat>, index: Index<Location>, end: nat,
                     survivors: seq<Location>, orders: seq<Order>, moved: seq<Location>, done: set<nat>,
                     index': Index<Location>, files2: Files, key: Key)
    requires Scope(hash, keys, files, ids, index, end) && Kept(files, ids, end, survivors, orders) && key in keys
    requires Updated(hash, index, orders, moved, end, done, index') && Extends(files2, files, moved, orders)
    requires Bucket(index, hash(key)) != []
    ensures Bucket(index', hash(key)) != []
    ensures Read(files2, Last(Bucket(index', hash(key))), key) == Read(files, Last(Bucket(index, hash(key))), key)
  {
    var h := hash(key);
    var p := BucketLast(hash, keys, files, Locations(files, ids), index, key);
    UpdatedLast(hash, keys, files, ids, index, end, survivors, orders, moved, done, index', key);
    var last, last' := Last(Bucket(index, h)), Last(Bucket(index', h));
    assert Exists(files, last);
    if last' != last {
      LastSurvives(hash, keys, files, ids, index, end, survivors, orders, key);
      var i :| 0 <= i < |orders| && orders[i].key == key && last' == moved[i];
      assert EntryAt(files2, last') == EntryAt(files, last);
    }
  }

  /** At every point of step 12, every lookup gives what it gave before. */
  lemma StepKeepsGet(hash: Key -> nat, keys: set<Key>, files: Files, ids: seq<nat>, index: Index<Location>, end: nat,
                     survivors: seq<Location>, orders: seq<Order>, moved: seq<Location>, done: set<nat>,
                     index': Index<Location>, files2: Files, key: Key)
    requires Scope(hash, keys, files, ids, index, end) && Kept(files, ids, end, survivors, orders) && key in keys
    requires Updated(hash, index, orders, moved, end, done, index') && Extends(files2, files, moved, orders)
    ensures Get(hash, files2, index', key) == Get(hash, files, index, key)
  {
    if Bucket(index, hash(key)) == [] {
      UpdatedNothing(hash, keys, files, ids, index, end, survivors, orders, moved, done, index', key);
    } else {
      UpdatedReads(hash, keys, files, ids, index, end, survivors, orders, moved, done, index', files2, key);
    }
  }

  /** A key without a bucket gets none. */
  lemma UpdatedNothing(hash: Key -> nat, keys: set<Key>, files: Files, ids: seq<nat>, index: Index<Location>, end: nat,
                       survivors: seq<Location>, orders: seq<Order>, moved: seq<Location>, done: set<nat>,
                       index': Index<Location>, key: Key)
    requires Scope(hash, keys, files, ids, index, end) && Kept(files, ids, end, survivors, orders)
    requires Updated(hash, index, orders, moved, end, done, index') && Bucket(index, hash(key)) == []
    ensures Bucket(index', hash(key)) == []
  {
    NoOrders(hash, keys, files, ids, index, end, survivors, orders, key);
  }

  /** A key without a bucket has no order. */
  lemma NoOrders(hash: Key -> nat, keys: set<Key>, files: Files, ids: seq<nat>, index: Index<Location>, end: nat,
                 survivors: seq<Location>, orders: seq<Order>, key: Key)
    requires Scope(hash, keys, files, ids, index, end) && Kept(files, ids, end, survivors, orders)
    requires Bucket(index, hash(key)) == []
    ensures forall i :: 0 <= i < |orders| ==> hash(orders[i].key) != hash(key)
  {
    var ls := Locations(files, ids);
    forall i | 0 <= i < |orders|
      ensures hash(orders[i].key) != hash(key)
    {
      assert SurvivesAt(files, ls, end, survivors[i]);
      var p: nat :| NewestPut(files, ls, end, p) && ls[p] == survivors[i];
      var j := InItsBucket(hash, files, ls, index, p);
      assert Bucket(index, hash(orders[i].key)) == InBucket(hash, files, ls, hash(orders[i].key));
    }
  }

  /** Step 14: the files of the range are gone; the new ones and those outside the range are still there. */
  ghost predicate Removed(files3: Files, files2: Files, end: nat)
  {
    forall l :: (InRange(l, end) ==> !Exists(files3, l))
             && (!InRange(l, end) && Exists(files2, l) ==>
                   Exists(files3, l) && EntryAt(files3, l) == EntryAt(files2, l))
  }

  /** The newest entry of a key is a delete, and lies in the range. */
  ghost predicate EndsDeleted(hash: Key -> nat, files: Files, index: Index<Location>, end: nat, key: Key)
  {
    var bucket := Bucket(index, hash(key));
    bucket != [] && InRange(Last(bucket), end) && Exists(files, Last(bucket)) && EntryAt(files, Last(bucket)).Delete?
  }

  /**
   * Compaction preserves lookups, except that a key whose newest entry is a delete in the range
   * keeps a bucket that ends in a removed file.
   */
  lemma CompactionKeepsGet(hash: Key -> nat, keys: set<Key>, files: Files, ids: seq<nat>, index: Index<Location>,
                           end: nat, survivors: seq<Location>, orders: seq<Order>, moved: seq<Location>,
                           index': Index<Location>, files2: Files, files3: Files, key: Key)
    requires Scope(hash, keys, files, ids, index, end) && Kept(files, ids, end, survivors, orders) && key in keys
    requires Updated(hash, index, orders, moved, end, Hashes(hash, orders), index')
    requires Extends(files2, files, moved, orders)
    requires Removed(files3, files2, end) && forall i :: 0 <= i < |moved| ==> !InRange(moved[i], end)
    ensures Get(hash, files3, index', key)
         == if EndsDeleted(hash, files, index, end, key) then Dangling else Get(hash, files, index, key)
  {
    if Bucket(index, hash(key)) == [] {
      UpdatedNothing(hash, keys, files, ids, index, end, survivors, orders, moved, Hashes(hash, orders), index', key);
    } else if InRange(Last(Bucket(index, hash(key))), end) {
      EndsInside(hash, keys, files, ids, index, end, survivors, orders, moved, index', files2, files3, key);
    } else {
      EndsOutside(hash, keys, files, ids, index, end, survivors, orders, moved, index', files2, files3, key);
    }
  }

  /** A bucket that ends outside the range ends with the same location, which is not removed. */
  lemma EndsOutside(hash: Key -> nat, keys: set<Key>, files: Files, ids: seq<nat>, index: Index<Location>, end: nat,
                    survivors: seq<Location>, orders: seq<Order>, moved: seq<Location>, index': Index<Location>,
                    files2: Files, files3: Files, key: Key)
    requires Scope(hash, keys, files, ids, index, end) && Kept(files, ids, end, survivors, orders) && key in keys
    requires Updated(hash, index, orders, moved, end, Hashes(hash, orders), index')
    requires Extends(files2, files, moved, orders)
    requires Removed(files3, files2, end) && Bucket(index, hash(key)) != []
    requires !InRange(Last(Bucket(index, hash(key))), end)
    ensures Get(hash, files3, index', key) == Get(hash, files, index, key)
  {
    var p := BucketLast(hash, keys, files, Locations(files, ids), index, key);
    UpdatedLast(hash, keys, files, ids, index, end, survivors, orders, moved, Hashes(hash, orders), index', key);
    RemovedReads(files2, files3, end, Last(Bucket(index', hash(key))), key);
    GetLast(hash, files, index, key);
    GetLast(hash, files3, index', key);
  }

  /**
   * A bucket that ends inside the range ends with the new location of its last entry, or dangles if that is
   * a delete.
   */
  lemma EndsInside(hash: Key -> nat, keys: set<Key>, files: Files, ids: seq<nat>, index: Index<Location>, end: nat,
                   survivors: seq<Location>, orders: seq<Order>, moved: seq<Location>, index': Index<Location>,
                   files2: Files, files3: Files, key: Key)
    requires Scope(hash, keys, files, ids, index, end) && Kept(files, ids, end, survivors, orders) && key in keys
    requires Updated(hash, index, orders, moved, end, Hashes(hash, orders), index')
    requires Extends(files2, files, moved, orders)
    requires Removed(files3, files2, end) && forall i :: 0 <= i < |moved| ==> !InRange(moved[i], end)
    requires Bucket(index, hash(key)) != [] && InRange(Last(Bucket(index, hash(key))), end)
    ensures Get(hash, files3, index', key)
         == if EndsDeleted(hash, files, index, end, key) then Dangling else Get(hash, files, index, key)
  {
    var p := BucketLast(hash, keys, files, Locations(files, ids), index, key);
    RangeLast(hash, keys, files, ids, index, end, survivors, orders, moved, index', key);
    UpdatedReads(hash, keys, files, ids, index, end, survivors, orders, moved, Hashes(hash, orders), index', files2,
                 key);
    RemovedReads(files2, files3, end, Last(Bucket(index', hash(key))), key);
    GetLast(hash, files, index, key);
    GetLast(hash, files3, index', key);
  }

  /** What a location gives once the files of the range are removed. */
  lemma RemovedReads(files2: Files, files3: Files, end: nat, l: Location, key: Key)
    requires Removed(files3, files2, end)
    ensures InRange(l, end) ==> Read(files3, l, key) == Some(Dangling)
    ensures !InRange(l, end) && Read(files2, l, key) != Some(Dangling) ==> Read(files3, l, key) == Read(files2, l, key)
  {}

  /** A bucket that ends inside the range is rewritten exactly when it ends with a put. */
  lemma RangeLast(hash: Key -> nat, keys: set<Key>, files: Files, ids: seq<nat>, index: Index<Location>, end: nat,
                  survivors: seq<Location>, orders: seq<Order>, moved: seq<Location>, index': Index<Location>, key: Key)
    requires Scope(hash, keys, files, ids, index, end) && Kept(files, ids, end, survivors, orders) && key in keys
    requires Updated(hash, index, orders, moved, end, Hashes(hash, orders), index')
    requires forall i :: 0 <= i < |moved| ==> !InRange(moved[i], end)
    requires Bucket(index, hash(key)) != [] && InRange(Last(Bucket(index, hash(key))), end)
    ensures Exists(files, Last(Bucket(index, hash(key)))) && Bucket(index', hash(key)) != []
    ensures InRange(Last(Bucket(index', hash(key))), end) <==> EntryAt(files, Last(Bucket(index, hash(key)))).Delete?
  {
    var h := hash(key);
    LastSurvives(hash, keys, files, ids, index, end, survivors, orders, key);
    BucketCut(hash, keys, files, ids, index, end, h);
    if h in Hashes(hash, orders) {
      var j := LastNew(hash, orders, moved, h);
      OrdersKeysIn(files, keys, survivors, orders, j);
      assert orders[j].key == key;
      assert Bucket(index', h) == NewLocations(hash, orders, moved, h);
    }
  }

  /** No rewritten bucket points into a removed file. */
  lemma RewrittenStays(hash: Key -> nat, files: Files, index: Index<Location>, end: nat, orders: seq<Order>,
                       moved: seq<Location>, index': Index<Location>, files2: Files, files3: Files, h: nat)
    requires Sound(hash, files, index) && h in Hashes(hash, orders)
    requires Updated(hash, index, orders, moved, end, Hashes(hash, orders), index')
    requires Extends(files2, files, moved, orders)
    requires Removed(files3, files2, end) && forall j :: 0 <= j < |moved| ==> !InRange(moved[j], end)
    ensures AllExist(files3, Bucket(index', h))
  {
    NewStays(hash, files, end, files2, files3, orders, moved, h);
    AfterStays(files, Bucket(index, h), end, files2, files3, orders, moved);
    AllExistJoin(files3, NewLocations(hash, orders, moved, h), After(Bucket(index, h), end));
  }

  lemma AllExistJoin(files: Files, a: seq<Location>, b: seq<Location>)
    requires forall l :: l in a || l in b ==> Exists(files, l)
    ensures AllExist(files, a + b)
  {}

  lemma NewStays(hash: Key -> nat, files: Files, end: nat, files2: Files, files3: Files, orders: seq<Order>,
                 moved: seq<Location>, h: nat)
    requires Extends(files2, files, moved, orders) && Removed(files3, files2, end)
    requires forall j :: 0 <= j < |moved| ==> !InRange(moved[j], end)
    ensures forall l :: l in NewLocations(hash, orders, moved, h) ==> Exists(files3, l)
  {
    NewAreMoved(hash, orders, moved, h);
  }

  lemma AfterStays(files: Files, bucket: seq<Location>, end: nat, files2: Files, files3: Files, orders: seq<Order>,
                   moved: seq<Location>)
    requires AllExist(files, bucket) && Extends(files2, files, moved, orders) && Removed(files3, files2, end)
    ensures forall l :: l in After(bucket, end) ==> Exists(files3, l)
  {
    AfterAre(bucket, end);
  }

  // ----- Step 13: what was written meanwhile -----

  /** The compaction index, poured after the main one. */
  ghost predicate Poured(index: Index<Location>, meanwhile: Index<Location>, index': Index<Location>)
  {
    forall h :: Bucket(index', h) == Bucket(index, h) + Bucket(meanwhile, h)
  }

  /** Get while compaction runs: what was written meanwhile is looked up first. */
  function GetDuring(hash: Key -> nat, files: Files, index: Index<Location>, meanwhile: Index<Location>,
                     key: Key): Answer
  {
    var answer := Get(hash, files, meanwhile, key);
    if answer.Found? || answer.Deleted? then answer else Get(hash, files, index, key)
  }

  /** Pouring changes no lookup. */
  lemma PouringKeepsGet(hash: Key -> nat, keys: set<Key>, files: Files, index: Index<Location>,
                        meanwhile: Index<Location>, index': Index<Location>, key: Key)
    requires Poured(index, meanwhile, index') && Sound(hash, files, meanwhile)
    requires KeysIn(files, keys) && Distinct(hash, keys) && key in keys
    ensures Get(hash, files, index', key) == GetDuring(hash, files, index, meanwhile, key)
  {
    var h := hash(key);
    var late := Bucket(meanwhile, h);
    assert Bucket(index', h) == Bucket(index, h) + late;
    if late == [] {
      assert Bucket(index', h) == Bucket(index, h);
    } else {
      assert Last(Bucket(index', h)) == late[|late| - 1];
      assert Exists(files, late[|late| - 1]);
    }
  }

  // ----- Reopening after compaction -----

  /** The directory after compaction: the files outside the range, and the new ones. */
  ghost predicate Compacted(files3: Files, files: Files, end: nat, out: Files)
  {
    && (forall id :: id in files3 <==> (id in files && id > end) || id in out)
    && (forall id :: id in files && id > end ==> files3[id] == files[id])
    && (forall id :: id in out ==> files3[id] == out[id])
  }

  /** The timestamp of the new files comes before that of every file outside the range. */
  ghost predicate Stamped(files: Files, end: nat, timestamp: nat)
  {
    forall id :: id in files && id > end ==> timestamp < files[id].timestamp
  }

  ghost predicate CutAt(ids: seq<nat>, end: nat, k: nat)
  {
    k <= |ids| && (forall i :: 0 <= i < k ==> ids[i] <= end) && (forall i :: k <= i < |ids| ==> ids[i] > end)
  }

  lemma AfterHasAll(files: Files, ids: seq<nat>, end: nat, out: Files, base: nat, n: nat, timestamp: nat, files3: Files,
                    k: nat)
    requires NewFiles(out, base, n, timestamp) && Compacted(files3, files, end, out) && CutAt(ids, end, k)
    requires forall id :: id in files <==> id in ids
    ensures forall id :: id in files3 <==> id in Range(base, n) + ids[k..]
  {
    var news, olds := Range(base, n), ids[k..];
    forall id
      ensures id in files3 <==> id in news || id in olds
    {
      if id in out {
        assert news[id - base - 1] == id;
      }
      if id in files && id > end {
        var i :| 0 <= i < |ids| && ids[i] == id;
        assert olds[i - k] == id;
      }
      if id in olds {
        var i :| 0 <= i < |olds| && olds[i] == id;
        assert ids[k + i] in ids;
      }
    }
  }

  /** On reopening, the new files come first, and then the files outside the range as before. */
  lemma ReplayAfter(files: Files, ids: seq<nat>, end: nat, out: Files, base: nat, n: nat, timestamp: nat, files3: Files,
                    k: nat)
    requires ReplayOrder(files, ids) && NewFiles(out, base, n, timestamp) && Compacted(files3, files, end, out)
    requires (n > 0 ==> Stamped(files, end, timestamp)) && CutAt(ids, end, k)
    ensures ReplayOrder(files3, Range(base, n) + ids[k..])
  {
    var ids3 := Range(base, n) + ids[k..];
    AfterHasAll(files, ids, end, out, base, n, timestamp, files3, k);
    assert forall i :: 0 <= i < |ids3| ==> ids3[i] in ids3;
    forall i, j | 0 <= i < j < |ids3|
      ensures Before(files3, ids3[i], ids3[j])
    {
      BeforeAfter(files, ids, end, out, base, n, timestamp, files3, k, i, j);
    }
  }

  lemma BeforeAfter(files: Files, ids: seq<nat>, end: nat, out: Files, base: nat, n: nat, timestamp: nat, files3: Files,
                    k: nat, i: nat, j: nat)
    requires ReplayOrder(files, ids) && NewFiles(out, base, n, timestamp) && Compacted(files3, files, end, out)
    requires (n > 0 ==> Stamped(files, end, timestamp)) && CutAt(ids, end, k) && i < j < n + |ids| - k
    ensures var ids3 := Range(base, n) + ids[k..];
            ids3[i] in files3 && ids3[j] in files3 && Before(files3, ids3[i], ids3[j])
  {
    if j < n {
    } else if i < n {
      var b := ids[k + j - n];
      assert b in ids && files3[b] == files[b];
    } else {
      var a, b := ids[k + i - n], ids[k + j - n];
      assert a in ids && b in ids && Before(files, a, b);
    }
  }

  lemma NewestPutInside(files: Files, inside: seq<Location>, outside: seq<Location>, end: nat, p: nat)
    requires AllExist(files, inside) && AllExist(files, inside + outside)
    requires forall i :: 0 <= i < |outside| ==> !InRange(outside[i], end)
    ensures NewestPut(files, inside + outside, end, p) <==> NewestPut(files, inside, end, p)
  {
    var ls := inside + outside;
    assert forall q :: 0 <= q < |inside| ==> ls[q] == inside[q];
    assert forall q :: |inside| <= q < |ls| ==> !InRange(ls[q], end);
  }

  /** What survives the replay is what survives its part inside the range. */
  lemma SurvivorsInside(files: Files, inside: seq<Location>, outside: seq<Location>, end: nat, survivors: seq<Location>)
    requires AllExist(files, inside) && AllExist(files, inside + outside)
    requires forall i :: 0 <= i < |outside| ==> !InRange(outside[i], end)
    requires AreSurvivors(files, inside + outside, end, survivors)
    ensures AreSurvivors(files, inside, end, survivors)
  {
    var ls := inside + outside;
    forall p: nat
      ensures NewestPut(files, ls, end, p) <==> NewestPut(files, inside, end, p)
    {
      NewestPutInside(files, inside, outside, end, p);
    }
    forall i | 0 <= i < |survivors|
      ensures SurvivesAt(files, inside, end, survivors[i])
    {
      assert SurvivesAt(files, ls, end, survivors[i]);
      var p: nat :| NewestPut(files, ls, end, p) && ls[p] == survivors[i];
      assert NewestPut(files, inside, end, p) && inside[p] == survivors[i];
    }
  }

  lemma OrdersAtJoin(files: Files, a: seq<Location>, b: seq<Location>)
    requires AllExist(files, a) && AllExist(files, b)
    ensures AllExist(files, a + b) && OrdersAt(files, a + b) == OrdersAt(files, a) + OrdersAt(files, b)
  {}

  /** The replay after compaction, in two parts. */
  lemma OrdersAfter(files: Files, ids: seq<nat>, end: nat, out: Files, base: nat, n: nat, timestamp: nat,
                    moved: seq<Location>, orders: seq<Order>, files3: Files, k: nat)
    requires CutAt(ids, end, k) && AllIn(files, ids[k..])
    requires Holds(out, base, n, timestamp, moved, orders) && Compacted(files3, files, end, out)
    ensures var ids3 := Range(base, n) + ids[k..];
            && AllIn(files3, ids3) && AllExist(files3, Locations(files3, ids3))
            && AllExist(files, Locations(files, ids[k..]))
            && OrdersAt(files3, Locations(files3, ids3)) == orders + OrdersAt(files, Locations(files, ids[k..]))
  {
    var news, olds := Range(base, n), ids[k..];
    assert Agree(files3, out, news) && Agree(files3, files, olds);
    LocationsAgree(files3, out, news);
    LocationsAgree(files3, files, olds);
    LocationsJoin(files3, news, olds);
    OrdersAtJoin(files3, Locations(files3, news), Locations(files3, olds));
  }

  /**
   * Compaction, then reopening: every key, deleted ones included, has the answer it would have had without
   * compaction.
   */
  lemma CompactionThenReopen(files: Files, ids: seq<nat>, end: nat, survivors: seq<Location>, orders: seq<Order>,
                             out: Files, base: nat, n: nat, timestamp: nat, moved: seq<Location>,
                             files3: Files, ids3: seq<nat>, key: Key)
    requires ReplayOrder(files, ids) && Newer(files, end) && Kept(files, ids, end, survivors, orders)
    requires Holds(out, base, n, timestamp, moved, orders) && Compacted(files3, files, end, out)
    requires (n > 0 ==> Stamped(files, end, timestamp)) && ReplayOrder(files3, ids3)
    ensures AllExist(files, Locations(files, ids)) && AllExist(files3, Locations(files3, ids3))
    ensures Lookup(OrdersAt(files3, Locations(files3, ids3)), key)
         == Lookup(OrdersAt(files, Locations(files, ids)), key)
  {
    var k, inside, outside := ReplayCut(files, ids, end);
    ReplayAfter(files, ids, end, out, base, n, timestamp, files3, k);
    SortedUnique(files3, ids3, Range(base, n) + ids[k..]);
    OrdersAfter(files, ids, end, out, base, n, timestamp, moved, orders, files3, k);
    LocationsAre(files, ids[..k]);
    OrdersAtJoin(files, inside, outside);
    SurvivorsInside(files, inside, outside, end, survivors);
    SurvivorsAnswer(files, inside, end, survivors, key);
    LookupJoin(orders, OrdersAt(files, outside), key);
    LookupJoin(OrdersAt(files, inside), OrdersAt(files, outside), key);
  }

  // ----- Compaction as a whole -----

  ghost predicate HashIn(hash: Key -> nat, files: Files, selected: set<nat>, h: nat)
  {
    exists l: Location :: l.fileid in selected && Exists(files, l) && hash(EntryAt(files, l).key) == h
  }

  /** The hashed keys in the selected files, each once. */
  ghost predicate Gathers(hash: Key -> nat, files: Files, selected: set<nat>, hashes: seq<nat>)
  {
    NoDuplicates(hashes) && forall h :: h in hashes <==> HashIn(hash, files, selected, h)
  }

  /** Some hashes of selected files; among them those of the entries before a position of a file. */
  ghost predicate GathersUpTo(hash: Key -> nat, files: Files, selected: set<nat>, hashes: seq<nat>, id: nat, i: nat)
  {
    && NoDuplicates(hashes) && (forall h :: h in hashes ==> HashIn(hash, files, selected, h))
    && (forall l: Location ::
          l.fileid in selected && Exists(files, l) && (l.fileid < id || (l.fileid == id && l.offset < i)) ==>
            hash(EntryAt(files, l).key) in hashes)
  }

  method CollectFromFile(hash: Key -> nat, files: Files, id: nat, hashes0: seq<nat>, ghost selected: set<nat>)
    returns (hashes: seq<nat>)
    requires id in files && id in selected && GathersUpTo(hash, files, selected, hashes0, id, 0)
    ensures GathersUpTo(hash, files, selected, hashes, id + 1, 0)
  {
    hashes := hashes0;
    var entries := files[id].entries;
    for i := 0 to |entries|
      invariant GathersUpTo(hash, files, selected, hashes, id, i)
    {
      var h := hash(entries[i].key);
      if h !in hashes {
        assert Exists(files, Location(id, i)) && EntryAt(files, Location(id, i)) == entries[i];
        hashes := hashes + [h];
      }
    }
  }

  /** Step 1b: the hashed keys in the selected files, each once. */
  method CollectHashes(hash: Key -> nat, files: Files, selected: set<nat>, end: nat) returns (hashes: seq<nat>)
    requires forall f :: f in selected ==> f in files && f <= end
    ensures Gathers(hash, files, selected, hashes)
  {
    hashes := [];
    for id := 0 to end + 1
      invariant GathersUpTo(hash, files, selected, hashes, id, 0)
    {
      if id in selected {
        hashes := CollectFromFile(hash, files, id, hashes, selected);
      }
    }
  }

  /** A set of file ids, in ascending order. */
  method Ascending(fileids: set<nat>, end: nat) returns (ids: seq<nat>)
    requires forall f :: f in fileids ==> f <= end
    ensures Increasing(ids) && forall f :: f in ids <==> f in fileids
  {
    ids := [];
    for id := 0 to end + 1
      invariant Increasing(ids)
      invariant forall f :: f in ids <==> f in fileids && f < id
    {
      if id in fileids {
        assert forall i :: 0 <= i < |ids| ==> ids[i] in ids;
        ids := ids + [id];
      }
    }
  }

  ghost predicate NonEmpty(files: Files)
  {
    forall id :: id in files ==> files[id].entries != []
  }

  /** What one compaction goes through, up to the new locations of what it keeps. */
  datatype Run = Run(hashes: seq<nat>, deleted: set<Location>, range: seq<nat>, kept: seq<Location>, orders: seq<Order>,
                     timestamp: nat, out: Files, n: nat, moved: seq<Location>)

  /** A file shares a hash with the selected ones. */
  ghost predicate Pulled(index: Index<Location>, hashes: seq<nat>, f: nat)
  {
    exists h :: h in hashes && FileIn(index, h, f)
  }

  /** The greatest timestamp of some files. */
  ghost predicate Greatest(files: Files, ids: seq<nat>, timestamp: nat)
  {
    && AllIn(files, ids) && (forall i :: 0 <= i < |ids| ==> files[ids[i]].timestamp <= timestamp)
    && (ids != [] ==> exists i :: 0 <= i < |ids| && files[ids[i]].timestamp == timestamp)
  }

  /** Steps 1b to 6, for the files selected: which files are compacted, and what is kept of them. */
  ghost predicate Selects(hash: Key -> nat, files: Files, index: Index<Location>, selected: set<nat>, end: nat,
                          run: Run)
  {
    && Gathers(hash, files, selected, run.hashes) && Classified(hash, files, index, run.hashes, end, run.deleted)
    && (forall f: nat :: f in run.range <==> f <= end && Pulled(index, run.hashes, f))
    && Increasing(run.range) && Greatest(files, run.range, run.timestamp)
    && run.kept == Undeleted(Locations(files, run.range), run.deleted) && PutsAt(files, run.kept, run.orders)
  }

  function Without(files: Files, range: seq<nat>): Files
  {
    map f | f in files && f !in range :: files[f]
  }

  /** A whole compaction, from one directory and index to another; `base` is the last file id in use. */
  ghost predicate IsRun(hash: Key -> nat, files: Files, index: Index<Location>, base: nat, selected: set<nat>, end: nat,
                        run: Run, files3: Files, index3: Index<Location>)
  {
    && Selects(hash, files, index, selected, end, run)
    && Holds(run.out, base, run.n, run.timestamp, run.moved, run.orders) && (run.orders == [] ==> run.n == 0)
    && Updated(hash, index, run.orders, run.moved, end, Hashes(hash, run.orders), index3)
    && files3 == Without(files + run.out, run.range)
  }

  ghost predicate InUse(files: Files, base: nat, end: nat)
  {
    end <= base && forall id :: id in files ==> id <= base
  }

  // ----- What a compaction of any selection does to a lookup -----

  /** Where an entry is after a compaction: at its new location, if its file was compacted. */
  ghost predicate IsImage(run: Run, l: Location, l': Location)
    requires |run.kept| == |run.moved|
  {
    if l.fileid in run.range then exists i :: 0 <= i < |run.kept| && run.kept[i] == l && run.moved[i] == l'
    else l' == l
  }

  /**
   * When a bucket goes on ending with the same entry. One that is not rewritten: when its last file is
   * not compacted. One that is: when it ends outside the range, or when it lies all inside and ends
   * with the entry that is kept last.
   */
  ghost predicate StaysLast(hash: Key -> nat, bucket: seq<Location>, end: nat, run: Run, h: nat)
    requires |run.kept| == |run.orders| && bucket != []
  {
    if h !in Hashes(hash, run.orders) then Last(bucket).fileid !in run.range
    else
      InRange(Last(bucket), end) ==>
        After(bucket, end) == [] && exists j: nat :: LastWith(hash, run.orders, h, j) && run.kept[j] == Last(bucket)
  }

  /** What is kept and what is new, by their files. */
  ghost predicate Moves(files: Files, base: nat, end: nat, run: Run)
  {
    && |run.kept| == |run.orders| == |run.moved| && NoDuplicates(run.moved) && end <= base
    && (forall f :: f in run.range ==> f <= end) && (forall l :: l in run.moved ==> l.fileid > base)
    && (forall l :: l in run.kept <==> l.fileid in run.range && Exists(files, l) && l !in run.deleted)
  }

  lemma RunMoves(hash: Key -> nat, files: Files, index: Index<Location>, base: nat, selected: set<nat>, end: nat,
                 run: Run, files3: Files, index3: Index<Location>)
    requires IsRun(hash, files, index, base, selected, end, run, files3, index3) && InUse(files, base, end)
    ensures Moves(files, base, end, run)
  {
    LocationsAre(files, run.range);
    UndeletedAre(Locations(files, run.range), run.deleted);
    LocationsDiffer(run.out, Range(base, run.n));
    LocationsAre(run.out, Range(base, run.n));
  }

  /** One rewritten bucket. */
  lemma RewrittenBucket(hash: Key -> nat, files: Files, bucket: seq<Location>, base: nat, end: nat, run: Run, h: nat)
    requires Moves(files, base, end, run) && bucket != [] && h in Hashes(hash, run.orders)
    requires forall l :: l in run.moved ==> l !in bucket
    ensures var bucket3 := NewLocations(hash, run.orders, run.moved, h) + After(bucket, end);
            bucket3 != [] && (IsImage(run, Last(bucket), Last(bucket3)) <==> StaysLast(hash, bucket, end, run, h))
  {
    var l, after := Last(bucket), After(bucket, end);
    var j := LastNew(hash, run.orders, run.moved, h);
    AfterAre(bucket, end);
    if !InRange(l, end) {
      LastAfter(bucket, end);
    } else if after == [] {
      assert run.moved[j] in run.moved && run.kept[j] in run.kept;
      assert NewLocations(hash, run.orders, run.moved, h) + after == NewLocations(hash, run.orders, run.moved, h);
    } else {
      assert Last(after) in after;
      assert forall i :: 0 <= i < |run.moved| ==> run.moved[i] in run.moved;
    }
  }

  lemma OtherBucket(hash: Key -> nat, files: Files, bucket: seq<Location>, base: nat, end: nat, run: Run, h: nat)
    requires Moves(files, base, end, run) && bucket != [] && h !in Hashes(hash, run.orders)
    requires forall l :: l in run.moved ==> l !in bucket
    ensures IsImage(run, Last(bucket), Last(bucket)) <==> StaysLast(hash, bucket, end, run, h)
  {
    assert Last(bucket) in bucket;
    assert forall i :: 0 <= i < |run.moved| ==> run.moved[i] in run.moved;
  }

  /**
   * For every bucket, after a compaction of any selection: the entry that it ended with is still the
   * one that it ends with, if and only if the bucket meets the condition.
   */
  lemma RewrittenLast(hash: Key -> nat, files: Files, index: Index<Location>, base: nat, selected: set<nat>, end: nat,
                      run: Run, files3: Files, index3: Index<Location>, h: nat)
    requires IsRun(hash, files, index, base, selected, end, run, files3, index3) && InUse(files, base, end)
    requires Sound(hash, files, index) && Bucket(index, h) != []
    ensures |run.kept| == |run.orders| == |run.moved| && Bucket(index3, h) != []
    ensures IsImage(run, Last(Bucket(index, h)), Last(Bucket(index3, h)))
       <==> StaysLast(hash, Bucket(index, h), end, run, h)
  {
    RunMoves(hash, files, index, base, selected, end, run, files3, index3);
    RewrittenFrom(hash, files, index, base, end, run, index3, h);
  }

  lemma RewrittenFrom(hash: Key -> nat, files: Files, index: Index<Location>, base: nat, end: nat, run: Run,
                      index3: Index<Location>, h: nat)
    requires Moves(files, base, end, run) && (forall id :: id in files ==> id <= base)
    requires Updated(hash, index, run.orders, run.moved, end, Hashes(hash, run.orders), index3)
    requires Sound(hash, files, index) && Bucket(index, h) != []
    ensures Bucket(index3, h) != []
    ensures IsImage(run, Last(Bucket(index, h)), Last(Bucket(index3, h)))
       <==> StaysLast(hash, Bucket(index, h), end, run, h)
  {
    NewNotIn(hash, files, index, base, run.moved, h);
    if h in Hashes(hash, run.orders) {
      RewrittenBucket(hash, files, Bucket(index, h), base, end, run, h);
    } else {
      OtherBucket(hash, files, Bucket(index, h), base, end, run, h);
    }
  }

  lemma NewNotIn(hash: Key -> nat, files: Files, index: Index<Location>, base: nat, moved: seq<Location>, h: nat)
    requires Sound(hash, files, index) && (forall id :: id in files ==> id <= base)
    requires forall l :: l in moved ==> l.fileid > base
    ensures forall l :: l in moved ==> l !in Bucket(index, h)
  {}

  /** What is not compacted stays where it is. */
  lemma OldStaysThere(files: Files, base: nat, end: nat, run: Run, l: Location)
    requires InUse(files, base, end) && NewFiles(run.out, base, run.n, run.timestamp)
    requires Exists(files, l) && l.fileid !in run.range
    ensures var files3 := Without(files + run.out, run.range);
            Exists(files3, l) && EntryAt(files3, l) == EntryAt(files, l)
  {}

  /** What is written is at its new location. */
  lemma NewIsThere(files: Files, base: nat, end: nat, run: Run, i: nat)
    requires Moves(files, base, end, run) && Holds(run.out, base, run.n, run.timestamp, run.moved, run.orders)
    requires i < |run.moved|
    ensures var files3 := Without(files + run.out, run.range);
            Exists(files3, run.moved[i]) && EntryAt(files3, run.moved[i]) == run.orders[i]
  {
    assert run.moved[i] in run.moved && EntryAt(run.out, run.moved[i]) == run.orders[i];
  }

  /** An entry is read from its image as it was, except that a delete has become a put of nothing. */
  lemma ImageReads(files: Files, base: nat, end: nat, run: Run, l: Location, l': Location, key: Key)
    requires Moves(files, base, end, run) && InUse(files, base, end) && PutsAt(files, run.kept, run.orders)
    requires Holds(run.out, base, run.n, run.timestamp, run.moved, run.orders) && IsImage(run, l, l')
    requires Exists(files, l)
    ensures Read(Without(files + run.out, run.range), l', key)
         == if l.fileid in run.range && EntryAt(files, l) == Delete(key) then Some(Found([])) else Read(files, l, key)
  {
    if l.fileid in run.range {
      var i :| 0 <= i < |run.kept| && run.kept[i] == l && run.moved[i] == l';
      NewIsThere(files, base, end, run, i);
    } else {
      OldStaysThere(files, base, end, run, l);
    }
  }

  /**
   * So the last location of a bucket that meets the condition gives what it gave, except that a delete that
   * is kept reads as an empty value; and with it the lookup of a key whose entry is there.
   */
  lemma SelectionKeepsGet(hash: Key -> nat, files: Files, index: Index<Location>, base: nat, selected: set<nat>,
                          end: nat, run: Run, files3: Files, index3: Index<Location>, key: Key)
    requires IsRun(hash, files, index, base, selected, end, run, files3, index3) && InUse(files, base, end)
    requires Sound(hash, files, index) && Bucket(index, hash(key)) != [] && |run.kept| == |run.orders|
    requires StaysLast(hash, Bucket(index, hash(key)), end, run, hash(key))
    ensures Bucket(index3, hash(key)) != []
    ensures var l := Last(Bucket(index, hash(key)));
            Read(files3, Last(Bucket(index3, hash(key))), key)
            == if l.fileid in run.range && EntryAt(files, l) == Delete(key) then Some(Found([]))
               else Read(files, l, key)
    ensures var l := Last(Bucket(index, hash(key)));
            EntryAt(files, l).key == key ==>
              Get(hash, files3, index3, key)
              == if l.fileid in run.range && EntryAt(files, l).Delete? then Found([]) else Get(hash, files, index, key)
  {
    RewrittenLast(hash, files, index, base, selected, end, run, files3, index3, hash(key));
    RunMoves(hash, files, index, base, selected, end, run, files3, index3);
    ImageReads(files, base, end, run, Last(Bucket(index, hash(key))), Last(Bucket(index3, hash(key))), key);
    GetLast(hash, files, index, key);
    GetLast(hash, files3, index3, key);
  }

  /** The buckets list all entries, each once. */
  ghost predicate Lists(hash: Key -> nat, files: Files, index: Index<Location>)
  {
    && Sound(hash, files, index) && (forall h :: NoDuplicates(Bucket(index, h)))
    && (forall l :: Exists(files, l) ==> l in Bucket(index, hash(EntryAt(files, l).key)))
  }

  /** As they do when a database is opened. */
  lemma IndexedLists(hash: Key -> nat, files: Files, ids: seq<nat>, index: Index<Location>)
    requires ReplayOrder(files, ids) && Indexed(hash, files, Locations(files, ids), index)
    ensures Lists(hash, files, index)
  {
    var ls := Locations(files, ids);
    IndexedIsSound(hash, files, ls, index);
    LocationsAre(files, ids);
    SortedDiffer(files, ids);
    LocationsDiffer(files, ids);
    forall l | Exists(files, l)
      ensures l in Bucket(index, hash(EntryAt(files, l).key))
    {
      var p: nat :| p < |ls| && ls[p] == l;
      var i := InItsBucket(hash, files, ls, index, p);
      BucketAt(hash, files, ls, index, hash(EntryAt(files, l).key), i);
    }
    forall h
      ensures NoDuplicates(Bucket(index, h))
    {
      BucketDiffers(hash, files, ls, index, h);
    }
  }

  lemma BucketDiffers(hash: Key -> nat, files: Files, ls: seq<Location>, index: Index<Location>, h: nat)
    requires Indexed(hash, files, ls, index) && NoDuplicates(ls)
    ensures NoDuplicates(Bucket(index, h))
  {
    assert Bucket(index, h) == InBucket(hash, files, ls, h);
  }

  /**
   * An entry of the range with a hash of the selected files is deleted unless it is the last of its bucket
   * inside the range, and a put.
   */
  lemma DeletedUnlessLast(hash: Key -> nat, keys: set<Key>, files: Files, index: Index<Location>, end: nat,
                          hashes: seq<nat>, deleted: set<Location>, h: nat, i: nat)
    requires Lists(hash, files, index) && KeysIn(files, keys) && Distinct(hash, keys)
    requires Classified(hash, files, index, hashes, end, deleted) && h in hashes
    requires i < |Bucket(index, h)| && InRange(Bucket(index, h)[i], end)
    ensures Bucket(index, h)[i] in deleted
       <==> ((exists j :: i < j < |Bucket(index, h)| && InRange(Bucket(index, h)[j], end))
             || EntryAt(files, Bucket(index, h)[i]).Delete?)
  {
    SupersededInRange(hash, keys, files, index, end, h, i);
    DeletedIsDoomed(hash, files, index, end, hashes, deleted, h, i);
  }

  /** Of the entries of a bucket inside the range, all but the last are superseded. */
  lemma SupersededInRange(hash: Key -> nat, keys: set<Key>, files: Files, index: Index<Location>, end: nat, h: nat,
                          i: nat)
    requires Sound(hash, files, index) && KeysIn(files, keys) && Distinct(hash, keys) && i < |Bucket(index, h)|
    ensures AllExist(files, Bucket(index, h))
    ensures Superseded(files, Bucket(index, h), end, i)
       <==> exists j :: i < j < |Bucket(index, h)| && InRange(Bucket(index, h)[j], end)
  {
    SameKeys(hash, keys, files, index, h);
  }

  lemma DeletedIsDoomed(hash: Key -> nat, files: Files, index: Index<Location>, end: nat, hashes: seq<nat>,
                        deleted: set<Location>, h: nat, i: nat)
    requires Sound(hash, files, index) && NoDuplicates(Bucket(index, h)) && AllExist(files, Bucket(index, h))
    requires Classified(hash, files, index, hashes, end, deleted) && h in hashes && i < |Bucket(index, h)|
    ensures Bucket(index, h)[i] in deleted <==> DoomedAt(files, Bucket(index, h), end, i)
  {
    var l := Bucket(index, h)[i];
    if DoomedAt(files, Bucket(index, h), end, i) {
      assert DoomedIn(files, index, end, h, l);
    }
    if l in deleted {
      var g :| g in hashes && DoomedIn(files, index, end, g, l);
      var m: nat :| DoomedAt(files, Bucket(index, g), end, m) && Bucket(index, g)[m] == l;
      assert g == h && m == i;
    }
  }

  lemma SameKeys(hash: Key -> nat, keys: set<Key>, files: Files, index: Index<Location>, h: nat)
    requires Sound(hash, files, index) && KeysIn(files, keys) && Distinct(hash, keys)
    ensures AllExist(files, Bucket(index, h))
    ensures forall i, j :: 0 <= i < |Bucket(index, h)| && 0 <= j < |Bucket(index, h)| ==>
              EntryAt(files, Bucket(index, h)[i]).key == EntryAt(files, Bucket(index, h)[j]).key
  {}

  /** What steps 2 and 3 make of the entries, when all of them are in their buckets. */
  ghost predicate Sifted(hash: Key -> nat, keys: set<Key>, files: Files, index: Index<Location>, end: nat, run: Run)
  {
    && Lists(hash, files, index) && KeysIn(files, keys) && Distinct(hash, keys)
    && Classified(hash, files, index, run.hashes, end, run.deleted) && PutsAt(files, run.kept, run.orders)
    && (forall f: nat :: f in run.range <==> f <= end && Pulled(index, run.hashes, f))
  }

  /**
   * For a key of the selected files the condition is: if the bucket ends inside the range, it lies
   * all inside, and ends with a put.
   */
  lemma SelectedStays(hash: Key -> nat, keys: set<Key>, files: Files, index: Index<Location>, base: nat,
                      selected: set<nat>, end: nat, run: Run, files3: Files, index3: Index<Location>, h: nat)
    requires IsRun(hash, files, index, base, selected, end, run, files3, index3) && InUse(files, base, end)
    requires Lists(hash, files, index) && KeysIn(files, keys) && Distinct(hash, keys)
    requires h in run.hashes && Bucket(index, h) != []
    ensures |run.kept| == |run.orders| && Exists(files, Last(Bucket(index, h)))
    ensures StaysLast(hash, Bucket(index, h), end, run, h)
       <==> (InRange(Last(Bucket(index, h)), end) ==>
               After(Bucket(index, h), end) == [] && EntryAt(files, Last(Bucket(index, h))).Put?)
  {
    RunMoves(hash, files, index, base, selected, end, run, files3, index3);
    if InRange(Last(Bucket(index, h)), end) {
      LastIsKept(hash, keys, files, index, base, end, run, h);
    }
  }

  lemma LastIsKept(hash: Key -> nat, keys: set<Key>, files: Files, index: Index<Location>, base: nat, end: nat,
                   run: Run, h: nat)
    requires Moves(files, base, end, run) && Sifted(hash, keys, files, index, end, run)
    requires h in run.hashes && Bucket(index, h) != [] && InRange(Last(Bucket(index, h)), end)
    ensures Exists(files, Last(Bucket(index, h)))
    ensures StaysLast(hash, Bucket(index, h), end, run, h)
       <==> After(Bucket(index, h), end) == [] && EntryAt(files, Last(Bucket(index, h))).Put?
  {
    LastInRange(hash, keys, files, index, base, end, run, h);
    if EntryAt(files, Last(Bucket(index, h))).Put? {
      var j := LastPutKept(hash, keys, files, index, base, end, run, h);
    }
    assert forall i :: 0 <= i < |run.kept| ==> run.kept[i] in run.kept;
  }

  /** What a bucket of the selected files ends with is kept exactly when it is a put. */
  lemma LastInRange(hash: Key -> nat, keys: set<Key>, files: Files, index: Index<Location>, base: nat, end: nat,
                    run: Run, h: nat)
    requires Moves(files, base, end, run) && Sifted(hash, keys, files, index, end, run)
    requires h in run.hashes && Bucket(index, h) != [] && InRange(Last(Bucket(index, h)), end)
    ensures Exists(files, Last(Bucket(index, h))) && Last(Bucket(index, h)).fileid in run.range
    ensures Last(Bucket(index, h)) in run.kept <==> EntryAt(files, Last(Bucket(index, h))).Put?
  {
    LastPulled(index, run.hashes, h);
    LastDeleted(hash, keys, files, index, end, run.hashes, run.deleted, h);
  }

  lemma LastPulled(index: Index<Location>, hashes: seq<nat>, h: nat)
    requires h in hashes && Bucket(index, h) != []
    ensures Pulled(index, hashes, Last(Bucket(index, h)).fileid)
  {
    assert Last(Bucket(index, h)) in Bucket(index, h);
    assert FileIn(index, h, Last(Bucket(index, h)).fileid);
  }

  lemma LastDeleted(hash: Key -> nat, keys: set<Key>, files: Files, index: Index<Location>, end: nat, hashes: seq<nat>,
                    deleted: set<Location>, h: nat)
    requires Lists(hash, files, index) && KeysIn(files, keys) && Distinct(hash, keys)
    requires Classified(hash, files, index, hashes, end, deleted) && h in hashes
    requires Bucket(index, h) != [] && InRange(Last(Bucket(index, h)), end)
    ensures Exists(files, Last(Bucket(index, h)))
    ensures Last(Bucket(index, h)) in deleted <==> EntryAt(files, Last(Bucket(index, h))).Delete?
  {
    DeletedUnlessLast(hash, keys, files, index, end, hashes, deleted, h, |Bucket(index, h)| - 1);
  }

  lemma LastPutKept(hash: Key -> nat, keys: set<Key>, files: Files, index: Index<Location>, base: nat, end: nat,
                    run: Run, h: nat)
    returns (j: nat)
    requires Moves(files, base, end, run) && Sifted(hash, keys, files, index, end, run)
    requires h in run.hashes && Bucket(index, h) != [] && InRange(Last(Bucket(index, h)), end)
    requires Last(Bucket(index, h)) in run.kept
    ensures h in Hashes(hash, run.orders) && LastWith(hash, run.orders, h, j) && run.kept[j] == Last(Bucket(index, h))
  {
    var l := Last(Bucket(index, h));
    var i :| 0 <= i < |run.kept| && run.kept[i] == l;
    assert hash(run.orders[i].key) == h;
    j := LastNew(hash, run.orders, run.moved, h);
    KeptIsLast(hash, keys, files, index, base, end, run, h, j);
  }

  /** What is kept with a hash of the selected files can only be what the bucket ends with. */
  lemma KeptIsLast(hash: Key -> nat, keys: set<Key>, files: Files, index: Index<Location>, base: nat, end: nat,
                   run: Run, h: nat, j: nat)
    requires Moves(files, base, end, run) && Sifted(hash, keys, files, index, end, run)
    requires h in run.hashes && Bucket(index, h) != [] && InRange(Last(Bucket(index, h)), end)
    requires j < |run.orders| && hash(run.orders[j].key) == h
    ensures run.kept[j] == Last(Bucket(index, h))
  {
    KeptInside(hash, keys, files, index, base, end, run, h, j, |Bucket(index, h)| - 1);
  }

  /**
   * Of the files that are compacted, every entry without a hash of the selected ones is kept, whatever it is
   * and however old.
   */
  lemma UnselectedKept(hash: Key -> nat, files: Files, index: Index<Location>, base: nat, end: nat, run: Run,
                       l: Location)
    requires Moves(files, base, end, run) && Classified(hash, files, index, run.hashes, end, run.deleted)
    requires Sound(hash, files, index) && l.fileid in run.range && Exists(files, l)
    requires hash(EntryAt(files, l).key) !in run.hashes
    ensures l in run.kept
  {
    forall h | DoomedIn(files, index, end, h, l)
      ensures hash(EntryAt(files, l).key) == h
    {
      var i: nat :| DoomedAt(files, Bucket(index, h), end, i) && Bucket(index, h)[i] == l;
    }
  }

  /** Locations by file id, and then by offset. */
  predicate Less(a: Location, b: Location)
  {
    a.fileid < b.fileid || (a.fileid == b.fileid && a.offset < b.offset)
  }

  ghost predicate Ascends(ls: seq<Location>)
  {
    forall i, j :: 0 <= i < j < |ls| ==> Less(ls[i], ls[j])
  }

  lemma {:induction false} LocationsAscend(files: Files, ids: seq<nat>)
    requires AllIn(files, ids) && Increasing(ids)
    ensures Ascends(Locations(files, ids))
    decreases |ids|
  {
    if ids != [] {
      var front, id := ids[..|ids| - 1], ids[|ids| - 1];
      LocationsAscend(files, front);
      LocationsAre(files, front);
      var ls := Locations(files, front);
      assert forall i :: 0 <= i < |ls| ==> ls[i] in ls;
    }
  }

  lemma {:induction false} UndeletedAscends(ls: seq<Location>, deleted: set<Location>)
    requires Ascends(ls)
    ensures Ascends(Undeleted(ls, deleted))
    decreases |ls|
  {
    if ls != [] {
      var init := ls[..|ls| - 1];
      UndeletedAscends(init, deleted);
      UndeletedAre(init, deleted);
      var front := Undeleted(init, deleted);
      forall i | 0 <= i < |front|
        ensures Less(front[i], ls[|ls| - 1])
      {
        assert front[i] in front;
        var k :| 0 <= k < |init| && init[k] == front[i];
      }
    }
  }

  /** A location of a bucket is the greatest of those in compacted files. */
  ghost predicate GreatestCompacted(bucket: seq<Location>, range: seq<nat>, l: Location)
  {
    && l in bucket && l.fileid in range
    && forall m :: m in bucket && m.fileid in range ==> m == l || Less(m, l)
  }

  /**
   * What is kept with a hash that is not in the selected files: what the bucket has in compacted files, in
   * ascending order.
   */
  ghost predicate KeepsCompacted(hash: Key -> nat, bucket: seq<Location>, run: Run, h: nat)
  {
    && |run.kept| == |run.orders| && Ascends(run.kept)
    && (forall i :: 0 <= i < |run.kept| && hash(run.orders[i].key) == h ==>
          run.kept[i] in bucket && run.kept[i].fileid in run.range)
    && (forall l :: l in bucket && l.fileid in run.range ==>
          exists i :: 0 <= i < |run.kept| && run.kept[i] == l && hash(run.orders[i].key) == h)
  }

  lemma UnselectedKeeps(hash: Key -> nat, files: Files, index: Index<Location>, base: nat, end: nat, run: Run, h: nat)
    requires Moves(files, base, end, run) && Classified(hash, files, index, run.hashes, end, run.deleted)
    requires Lists(hash, files, index) && h !in run.hashes && PutsAt(files, run.kept, run.orders) && Ascends(run.kept)
    ensures KeepsCompacted(hash, Bucket(index, h), run, h)
  {
    var bucket := Bucket(index, h);
    forall i | 0 <= i < |run.kept| && hash(run.orders[i].key) == h
      ensures run.kept[i] in bucket && run.kept[i].fileid in run.range
    {
      assert run.kept[i] in run.kept;
    }
    forall l | l in bucket && l.fileid in run.range
      ensures exists i :: 0 <= i < |run.kept| && run.kept[i] == l && hash(run.orders[i].key) == h
    {
      var k :| 0 <= k < |bucket| && bucket[k] == l;
      UnselectedKept(hash, files, index, base, end, run, l);
      var i :| 0 <= i < |run.kept| && run.kept[i] == l;
      assert hash(run.orders[i].key) == h;
    }
  }

  lemma KeptAscend(hash: Key -> nat, files: Files, index: Index<Location>, selected: set<nat>, end: nat, run: Run)
    requires Selects(hash, files, index, selected, end, run)
    ensures Ascends(run.kept)
  {
    LocationsAscend(files, run.range);
    UndeletedAscends(Locations(files, run.range), run.deleted);
  }

  /** The last of them is the greatest. */
  lemma LastIsGreatest(hash: Key -> nat, bucket: seq<Location>, run: Run, h: nat, l: Location)
    requires KeepsCompacted(hash, bucket, run, h)
    ensures (exists j: nat :: LastWith(hash, run.orders, h, j) && run.kept[j] == l)
       <==> GreatestCompacted(bucket, run.range, l)
  {
    if j: nat :| LastWith(hash, run.orders, h, j) && run.kept[j] == l {
      forall m | m in bucket && m.fileid in run.range
        ensures m == l || Less(m, l)
      {
        var i :| 0 <= i < |run.kept| && run.kept[i] == m && hash(run.orders[i].key) == h;
        assert i <= j;
      }
    }
    if GreatestCompacted(bucket, run.range, l) {
      var i: nat :| i < |run.kept| && run.kept[i] == l && hash(run.orders[i].key) == h;
      forall k | i < k < |run.orders|
        ensures hash(run.orders[k].key) != h
      {
        assert Less(run.kept[i], run.kept[k]);
      }
      assert LastWith(hash, run.orders, h, i);
    }
  }

  /**
   * For a key that is not in the selected files the condition is: if some of the bucket lies in compacted
   * files, and it ends inside the range, then it lies all inside, and ends with the greatest location, by
   * file id and offset, of those in compacted files.
   */
  lemma UnselectedStays(hash: Key -> nat, files: Files, index: Index<Location>, base: nat, selected: set<nat>, end: nat,
                        run: Run, files3: Files, index3: Index<Location>, h: nat)
    requires IsRun(hash, files, index, base, selected, end, run, files3, index3) && InUse(files, base, end)
    requires Lists(hash, files, index) && h !in run.hashes && Bucket(index, h) != []
    ensures |run.kept| == |run.orders|
    ensures var bucket := Bucket(index, h);
            StaysLast(hash, bucket, end, run, h)
            <==> ((exists l :: l in bucket && l.fileid in run.range) && InRange(Last(bucket), end) ==>
                    After(bucket, end) == [] && GreatestCompacted(bucket, run.range, Last(bucket)))
  {
    RunMoves(hash, files, index, base, selected, end, run, files3, index3);
    KeptAscend(hash, files, index, selected, end, run);
    UnselectedKeeps(hash, files, index, base, end, run, h);
    UnselectedFrom(hash, Bucket(index, h), end, run, h);
  }

  lemma UnselectedFrom(hash: Key -> nat, bucket: seq<Location>, end: nat, run: Run, h: nat)
    requires KeepsCompacted(hash, bucket, run, h) && bucket != []
    ensures StaysLast(hash, bucket, end, run, h)
       <==> ((exists l :: l in bucket && l.fileid in run.range) && InRange(Last(bucket), end) ==>
               After(bucket, end) == [] && GreatestCompacted(bucket, run.range, Last(bucket)))
  {
    LastIsGreatest(hash, bucket, run, h, Last(bucket));
    assert h in Hashes(hash, run.orders) <==> exists l :: l in bucket && l.fileid in run.range;
    assert Last(bucket) in bucket;
  }

  // ----- Whether the index stays sound -----

  /** A new location with a hash is that of an order with it. */
  lemma NewGives(hash: Key -> nat, orders: seq<Order>, moved: seq<Location>, h: nat, l: Location) returns (j: nat)
    requires |orders| == |moved| && l in NewLocations(hash, orders, moved, h)
    ensures j < |orders| && moved[j] == l && hash(orders[j].key) == h
  {
    var ps, news := Positions(hash, orders, h, 0, |orders|), NewLocations(hash, orders, moved, h);
    PositionsAre(hash, orders, h, 0, |orders|);
    var i :| 0 <= i < |news| && news[i] == l;
    assert ps[i] in ps;
    j := ps[i];
  }

  /** No bucket that is left as it was has a location in a compacted file. */
  ghost predicate LeavesNone(hash: Key -> nat, index: Index<Location>, run: Run)
  {
    forall h, l :: h !in Hashes(hash, run.orders) && l in Bucket(index, h) ==> l.fileid !in run.range
  }

  /** A location of an index after a compaction, if it leaves none. */
  lemma LocationAfter(hash: Key -> nat, files: Files, index: Index<Location>, base: nat, end: nat, run: Run,
                      index3: Index<Location>, h: nat, l: Location)
    requires Moves(files, base, end, run) && InUse(files, base, end) && Sound(hash, files, index)
    requires Holds(run.out, base, run.n, run.timestamp, run.moved, run.orders) && LeavesNone(hash, index, run)
    requires Updated(hash, index, run.orders, run.moved, end, Hashes(hash, run.orders), index3)
    requires l in Bucket(index3, h)
    ensures var files3 := Without(files + run.out, run.range);
            Exists(files3, l) && hash(EntryAt(files3, l).key) == h
  {
    if h in Hashes(hash, run.orders) && l in NewLocations(hash, run.orders, run.moved, h) {
      var j := NewGives(hash, run.orders, run.moved, h, l);
      NewIsThere(files, base, end, run, j);
    } else {
      AfterAre(Bucket(index, h), end);
      assert l in Bucket(index, h);
      var i :| 0 <= i < |Bucket(index, h)| && Bucket(index, h)[i] == l;
      OldStaysThere(files, base, end, run, l);
    }
  }

  /**
   * A compaction leaves the index sound if and only if no bucket that it leaves as it was has a location in
   * a compacted file. The next compaction reads such a location through a map that is not there.
   */
  lemma SoundAfter(hash: Key -> nat, files: Files, index: Index<Location>, base: nat, selected: set<nat>, end: nat,
                   run: Run, files3: Files, index3: Index<Location>)
    requires IsRun(hash, files, index, base, selected, end, run, files3, index3) && InUse(files, base, end)
    requires Sound(hash, files, index)
    ensures Sound(hash, files3, index3) <==> LeavesNone(hash, index, run)
  {
    RunMoves(hash, files, index, base, selected, end, run, files3, index3);
    if LeavesNone(hash, index, run) {
      forall h, i | 0 <= i < |Bucket(index3, h)|
        ensures Exists(files3, Bucket(index3, h)[i]) && hash(EntryAt(files3, Bucket(index3, h)[i]).key) == h
      {
        LocationAfter(hash, files, index, base, end, run, index3, h, Bucket(index3, h)[i]);
      }
    } else {
      var h, l :| h !in Hashes(hash, run.orders) && l in Bucket(index, h) && l.fileid in run.range;
      var i :| 0 <= i < |Bucket(index3, h)| && Bucket(index3, h)[i] == l;
      assert !Exists(files3, Bucket(index3, h)[i]);
    }
  }

  /** The last location of a bucket inside the range. */
  ghost predicate LastInside(bucket: seq<Location>, end: nat, i: nat)
  {
    i < |bucket| && InRange(bucket[i], end) && forall j :: i < j < |bucket| ==> !InRange(bucket[j], end)
  }

  /** The newest entry of the range is a put, for every key of the selected files. */
  ghost predicate NewestArePuts(files: Files, index: Index<Location>, hashes: seq<nat>, end: nat)
  {
    forall h, i: nat :: h in hashes && LastInside(Bucket(index, h), end, i) ==>
      Exists(files, Bucket(index, h)[i]) && EntryAt(files, Bucket(index, h)[i]).Put?
  }

  lemma InsideExists(bucket: seq<Location>, end: nat, l: Location) returns (i: nat)
    requires l in bucket && InRange(l, end)
    ensures LastInside(bucket, end, i)
  {
    i := |bucket| - 1;
    var k :| 0 <= k < |bucket| && bucket[k] == l;
    while !InRange(bucket[i], end)
      invariant k <= i < |bucket| && forall j :: i < j < |bucket| ==> !InRange(bucket[j], end)
      decreases i
    {
      i := i - 1;
    }
  }

  /**
   * Of a bucket of the selected files nothing is kept but its last entry inside the range, and that exactly
   * when it is a put.
   */
  lemma SelectedKept(hash: Key -> nat, keys: set<Key>, files: Files, index: Index<Location>, base: nat, end: nat,
                     run: Run, h: nat, i: nat)
    requires Moves(files, base, end, run) && Sifted(hash, keys, files, index, end, run)
    requires h in run.hashes && LastInside(Bucket(index, h), end, i)
    ensures Exists(files, Bucket(index, h)[i]) && Bucket(index, h)[i].fileid in run.range
    ensures h in Hashes(hash, run.orders) <==> EntryAt(files, Bucket(index, h)[i]).Put?
  {
    InsideKept(hash, keys, files, index, base, end, run, h, i);
    if EntryAt(files, Bucket(index, h)[i]).Put? {
      KeptHashes(hash, files, index, run, h, i);
    }
    if h in Hashes(hash, run.orders) {
      var j: nat :| j < |run.orders| && hash(run.orders[j].key) == h;
      KeptInside(hash, keys, files, index, base, end, run, h, j, i);
    }
  }

  lemma InsideKept(hash: Key -> nat, keys: set<Key>, files: Files, index: Index<Location>, base: nat, end: nat,
                   run: Run, h: nat, i: nat)
    requires Moves(files, base, end, run) && Sifted(hash, keys, files, index, end, run)
    requires h in run.hashes && LastInside(Bucket(index, h), end, i)
    ensures Exists(files, Bucket(index, h)[i]) && Bucket(index, h)[i].fileid in run.range
    ensures EntryAt(files, Bucket(index, h)[i]).Put? ==> Bucket(index, h)[i] in run.kept
  {
    var bucket := Bucket(index, h);
    assert bucket[i] in bucket;
    assert FileIn(index, h, bucket[i].fileid) && Pulled(index, run.hashes, bucket[i].fileid);
    DeletedUnlessLast(hash, keys, files, index, end, run.hashes, run.deleted, h, i);
  }

  lemma KeptInside(hash: Key -> nat, keys: set<Key>, files: Files, index: Index<Location>, base: nat, end: nat,
                   run: Run, h: nat, j: nat, i: nat)
    requires Moves(files, base, end, run) && Sifted(hash, keys, files, index, end, run)
    requires h in run.hashes && LastInside(Bucket(index, h), end, i) && j < |run.orders| && hash(run.orders[j].key) == h
    ensures run.kept[j] == Bucket(index, h)[i] && Exists(files, run.kept[j]) && EntryAt(files, run.kept[j]).Put?
  {
    var k := KeptAt(hash, keys, files, index, base, end, run, h, j);
    DeletedUnlessLast(hash, keys, files, index, end, run.hashes, run.deleted, h, k);
    OneLastInside(Bucket(index, h), end, i, k);
  }

  lemma OneLastInside(bucket: seq<Location>, end: nat, i: nat, k: nat)
    requires LastInside(bucket, end, i) && k < |bucket| && InRange(bucket[k], end)
    requires !exists j :: k < j < |bucket| && InRange(bucket[j], end)
    ensures k == i
  {}

  /** The position in its bucket of what is kept. */
  lemma KeptAt(hash: Key -> nat, keys: set<Key>, files: Files, index: Index<Location>, base: nat, end: nat, run: Run,
               h: nat, j: nat) returns (k: nat)
    requires Moves(files, base, end, run) && Sifted(hash, keys, files, index, end, run)
    requires j < |run.orders| && hash(run.orders[j].key) == h
    ensures k < |Bucket(index, h)| && Bucket(index, h)[k] == run.kept[j] && InRange(run.kept[j], end)
    ensures run.kept[j] !in run.deleted && Exists(files, run.kept[j])
  {
    var l := run.kept[j];
    assert l in run.kept;
    assert hash(EntryAt(files, l).key) == h;
    k :| k < |Bucket(index, h)| && Bucket(index, h)[k] == l;
  }

  /**
   * So, when the buckets list all entries, a compaction leaves the index sound if and only if, for every key
   * of the selected files, the newest entry of the range is a put.
   */
  lemma SoundUnlessDeletes(hash: Key -> nat, keys: set<Key>, files: Files, index: Index<Location>, base: nat,
                           selected: set<nat>, end: nat, run: Run, files3: Files, index3: Index<Location>)
    requires IsRun(hash, files, index, base, selected, end, run, files3, index3) && InUse(files, base, end)
    requires Lists(hash, files, index) && KeysIn(files, keys) && Distinct(hash, keys)
    ensures Sound(hash, files3, index3) <==> NewestArePuts(files, index, run.hashes, end)
  {
    SoundAfter(hash, files, index, base, selected, end, run, files3, index3);
    RunMoves(hash, files, index, base, selected, end, run, files3, index3);
    LeavesNoneMeans(hash, keys, files, index, base, end, run);
  }

  lemma LeavesNoneMeans(hash: Key -> nat, keys: set<Key>, files: Files, index: Index<Location>, base: nat, end: nat,
                        run: Run)
    requires Moves(files, base, end, run) && Sifted(hash, keys, files, index, end, run)
    ensures LeavesNone(hash, index, run) <==> NewestArePuts(files, index, run.hashes, end)
  {
    if LeavesNone(hash, index, run) {
      forall h, i: nat | h in run.hashes && LastInside(Bucket(index, h), end, i)
        ensures Exists(files, Bucket(index, h)[i]) && EntryAt(files, Bucket(index, h)[i]).Put?
      {
        SelectedKept(hash, keys, files, index, base, end, run, h, i);
        assert Bucket(index, h)[i] in Bucket(index, h);
      }
    }
    if NewestArePuts(files, index, run.hashes, end) {
      forall h, l | h !in Hashes(hash, run.orders) && l in Bucket(index, h)
        ensures l.fileid !in run.range
      {
        if l.fileid in run.range {
          SomeKept(hash, keys, files, index, base, end, run, h, l);
        }
      }
    }
  }

  /** Then a bucket with a location in a compacted file is rewritten. */
  lemma SomeKept(hash: Key -> nat, keys: set<Key>, files: Files, index: Index<Location>, base: nat, end: nat, run: Run,
                 h: nat, l: Location)
    requires Moves(files, base, end, run) && Sifted(hash, keys, files, index, end, run)
    requires NewestArePuts(files, index, run.hashes, end) && l in Bucket(index, h) && l.fileid in run.range
    ensures h in Hashes(hash, run.orders)
  {
    if h in run.hashes {
      var i := InsideExists(Bucket(index, h), end, l);
      SelectedKept(hash, keys, files, index, base, end, run, h, i);
    } else {
      UnselectedRewritten(hash, files, index, base, end, run, h, l);
    }
  }

  lemma UnselectedRewritten(hash: Key -> nat, files: Files, index: Index<Location>, base: nat, end: nat, run: Run,
                            h: nat, l: Location)
    requires Moves(files, base, end, run) && Classified(hash, files, index, run.hashes, end, run.deleted)
    requires Sound(hash, files, index) && PutsAt(files, run.kept, run.orders)
    requires h !in run.hashes && l in Bucket(index, h) && l.fileid in run.range
    ensures h in Hashes(hash, run.orders)
  {
    var k: nat :| k < |Bucket(index, h)| && Bucket(index, h)[k] == l;
    UnselectedKept(hash, files, index, base, end, run, l);
    KeptHashes(hash, files, index, run, h, k);
  }

  /** A bucket of which something is kept is rewritten. */
  lemma KeptHashes(hash: Key -> nat, files: Files, index: Index<Location>, run: Run, h: nat, i: nat)
    requires Sound(hash, files, index) && PutsAt(files, run.kept, run.orders)
    requires i < |Bucket(index, h)| && Bucket(index, h)[i] in run.kept
    ensures h in Hashes(hash, run.orders)
  {
    var j :| 0 <= j < |run.kept| && run.kept[j] == Bucket(index, h)[i];
    assert hash(run.orders[j].key) == h;
  }

  // ----- Compaction of all files of the range -----

  ghost predicate Covers(hash: Key -> nat, files: Files, end: nat, hashes: seq<nat>)
  {
    forall l :: Exists(files, l) && InRange(l, end) ==> hash(EntryAt(files, l).key) in hashes
  }

  /** All files of the range are selected. */
  ghost predicate AllSelected(files: Files, end: nat, selected: set<nat>)
  {
    forall f: nat :: f in selected <==> f in files && f <= end
  }

  lemma FileInBucket(hash: Key -> nat, files: Files, ids: seq<nat>, index: Index<Location>, end: nat, hashes: seq<nat>,
                     f: nat)
    requires ReplayOrder(files, ids) && Indexed(hash, files, Locations(files, ids), index) && NonEmpty(files)
    requires Covers(hash, files, end, hashes) && f <= end && f in files
    ensures Pulled(index, hashes, f)
  {
    var ls, l := Locations(files, ids), Location(f, 0);
    LocationsAre(files, ids);
    assert l in ls;
    var p :| 0 <= p < |ls| && ls[p] == l;
    var h := hash(EntryAt(files, l).key);
    var i := InItsBucket(hash, files, ls, index, p);
    assert Bucket(index, h) == InBucket(hash, files, ls, h);
    assert Bucket(index, h)[i] == l;
    assert h in hashes && FileIn(index, h, f);
  }

  /** Step 3 finds every file of the range. */
  lemma RangeIsAll(hash: Key -> nat, files: Files, ids: seq<nat>, index: Index<Location>, selected: set<nat>, end: nat,
                   run: Run)
    requires ReplayOrder(files, ids) && Indexed(hash, files, Locations(files, ids), index) && NonEmpty(files)
    requires Selects(hash, files, index, selected, end, run) && Covers(hash, files, end, run.hashes)
    ensures forall f: nat :: f in run.range <==> f in files && f <= end
  {
    forall f: nat
      ensures f in run.range <==> f in files && f <= end
    {
      if f <= end && f in files {
        FileInBucket(hash, files, ids, index, end, run.hashes, f);
      }
    }
  }

  /** What step 6 keeps is what survives the replay. */
  lemma KeepsSurvivors(hash: Key -> nat, files: Files, ids: seq<nat>, index: Index<Location>, end: nat,
                       hashes: seq<nat>, deleted: set<Location>, range: seq<nat>, survivors: seq<Location>)
    requires ReplayOrder(files, ids) && Indexed(hash, files, Locations(files, ids), index)
    requires Covers(hash, files, end, hashes) && Classified(hash, files, index, hashes, end, deleted)
    requires AllIn(files, range) && forall f :: f in range <==> f in files && f <= end
    requires survivors == Undeleted(Locations(files, range), deleted)
    ensures AllExist(files, survivors) && AreSurvivors(files, Locations(files, ids), end, survivors)
  {
    var ls := Locations(files, ids);
    LocationsAre(files, ids);
    LocationsAre(files, range);
    UndeletedAre(Locations(files, range), deleted);
    SortedDiffer(files, ids);
    LocationsDiffer(files, ids);
    forall i | 0 <= i < |survivors|
      ensures Exists(files, survivors[i]) && SurvivesAt(files, ls, end, survivors[i])
    {
      assert survivors[i] in survivors;
      assert survivors[i] in ls;
      var p: nat :| p < |ls| && ls[p] == survivors[i];
      Classify(hash, files, ls, index, hashes, end, deleted, p);
      assert NewestPut(files, ls, end, p);
    }
    forall p: nat | NewestPut(files, ls, end, p)
      ensures ls[p] in survivors
    {
      Classify(hash, files, ls, index, hashes, end, deleted, p);
      assert ls[p] in ls;
    }
  }

  lemma PutsAreOrders(files: Files, ls: seq<Location>, end: nat, survivors: seq<Location>, orders: seq<Order>)
    requires AllExist(files, ls) && AllExist(files, survivors) && AreSurvivors(files, ls, end, survivors)
    requires PutsAt(files, survivors, orders)
    ensures orders == OrdersAt(files, survivors)
  {
    forall i | 0 <= i < |orders|
      ensures orders[i] == EntryAt(files, survivors[i])
    {
      assert SurvivesAt(files, ls, end, survivors[i]);
    }
  }

  /** The timestamp of the new files is that of some file of the range. */
  lemma RangeStamped(files: Files, end: nat, range: seq<nat>, timestamp: nat)
    requires Newer(files, end) && Greatest(files, range, timestamp) && range != []
    requires forall f :: f in range ==> f <= end
    ensures Stamped(files, end, timestamp)
  {
    var i :| 0 <= i < |range| && files[range[i]].timestamp == timestamp;
    assert range[i] in range;
  }

  lemma SelectionKept(hash: Key -> nat, keys: set<Key>, files: Files, ids: seq<nat>, index: Index<Location>,
                      selected: set<nat>, end: nat, run: Run)
    requires Scope(hash, keys, files, ids, index, end) && NonEmpty(files) && AllSelected(files, end, selected)
    requires Selects(hash, files, index, selected, end, run)
    ensures forall f: nat :: f in run.range <==> f in files && f <= end
    ensures Kept(files, ids, end, run.kept, run.orders)
    ensures run.orders != [] ==> Stamped(files, end, run.timestamp)
  {
    var ls := Locations(files, ids);
    assert Covers(hash, files, end, run.hashes) by {
      forall l | Exists(files, l) && InRange(l, end)
        ensures hash(EntryAt(files, l).key) in run.hashes
      {
        assert HashIn(hash, files, selected, hash(EntryAt(files, l).key));
      }
    }
    RangeIsAll(hash, files, ids, index, selected, end, run);
    KeepsSurvivors(hash, files, ids, index, end, run.hashes, run.deleted, run.range, run.kept);
    PutsAreOrders(files, ls, end, run.kept, run.orders);
    if run.orders != [] {
      assert run.kept[0] in run.kept;
      UndeletedAre(Locations(files, run.range), run.deleted);
      LocationsAre(files, run.range);
      RangeStamped(files, end, run.range, run.timestamp);
    }
  }

  /** Steps 1b to 6. */
  method SelectOrders(hash: Key -> nat, files: Files, index: Index<Location>, selected: set<nat>, end: nat)
    returns (range: seq<nat>, orders: seq<Order>, timestamp: nat, ghost run: Run)
    requires Sound(hash, files, index) && forall f :: f in selected ==> f in files && f <= end
    ensures Selects(hash, files, index, selected, end, run)
    ensures range == run.range && orders == run.orders && timestamp == run.timestamp
  {
    var hashes := CollectHashes(hash, files, selected, end);
    var deleted, fileids := DetermineLocations(hash, files, index, hashes, end);
    range := Ascending(fileids, end);
    PulledExist(hash, files, index, hashes, range);
    timestamp := MaximumTimestamp(files, range);
    orders := BuildOrders(files, range, deleted);
    run := Run(hashes, deleted, range, Undeleted(Locations(files, range), deleted), orders, timestamp, map[], 0, []);
  }

  lemma PulledExist(hash: Key -> nat, files: Files, index: Index<Location>, hashes: seq<nat>, range: seq<nat>)
    requires Sound(hash, files, index) && forall f :: f in range ==> Pulled(index, hashes, f)
    ensures AllIn(files, range)
  {
    forall i | 0 <= i < |range|
      ensures range[i] in files
    {
      assert range[i] in range;
      var h :| h in hashes && FileIn(index, h, range[i]);
      var l :| l in Bucket(index, h) && l.fileid == range[i];
    }
  }

  /** Two directories, replayed, give a key the same answer. */
  ghost predicate SameAnswer(a: Files, ids: seq<nat>, b: Files, ids3: seq<nat>, key: Key)
  {
    && AllIn(a, ids) && AllIn(b, ids3)
    && AllExist(a, Locations(a, ids)) && AllExist(b, Locations(b, ids3))
    && Lookup(OrdersAt(b, Locations(b, ids3)), key) == Lookup(OrdersAt(a, Locations(a, ids)), key)
  }

  lemma ExtendsAfter(files: Files, out: Files, base: nat, n: nat, timestamp: nat, moved: seq<Location>,
                     orders: seq<Order>)
    requires Holds(out, base, n, timestamp, moved, orders) && forall id :: id in files ==> id <= base
    ensures Extends(files + out, files, moved, orders)
    ensures forall i :: 0 <= i < |moved| ==> moved[i].fileid > base
  {
    forall l | Exists(files, l)
      ensures Exists(files + out, l) && EntryAt(files + out, l) == EntryAt(files, l)
    {
      assert l.fileid !in out;
    }
  }

  /** The directory once the new files are in and the files of the range are out. */
  lemma FilesAfter(files: Files, out: Files, base: nat, n: nat, timestamp: nat, moved: seq<Location>,
                   orders: seq<Order>, range: seq<nat>, end: nat)
    requires Holds(out, base, n, timestamp, moved, orders) && end <= base && forall id :: id in files ==> id <= base
    requires forall f :: f in range <==> f in files && f <= end
    ensures Extends(files + out, files, moved, orders) && (forall i :: 0 <= i < |moved| ==> !InRange(moved[i], end))
    ensures Removed(Without(files + out, range), files + out, end)
    ensures Compacted(Without(files + out, range), files, end, out)
  {
    ExtendsAfter(files, out, base, n, timestamp, moved, orders);
  }

  lemma GetAfter(hash: Key -> nat, keys: set<Key>, files: Files, ids: seq<nat>, index: Index<Location>, end: nat,
                 survivors: seq<Location>, orders: seq<Order>, moved: seq<Location>, index': Index<Location>,
                 files2: Files, files3: Files)
    requires Scope(hash, keys, files, ids, index, end) && Kept(files, ids, end, survivors, orders)
    requires Updated(hash, index, orders, moved, end, Hashes(hash, orders), index')
    requires Extends(files2, files, moved, orders)
    requires Removed(files3, files2, end) && forall i :: 0 <= i < |moved| ==> !InRange(moved[i], end)
    ensures KeepsGets(hash, keys, files, index, end, files3, index')
  {
    forall key | key in keys
      ensures Get(hash, files3, index', key)
           == if EndsDeleted(hash, files, index, end, key) then Dangling else Get(hash, files, index, key)
    {
      CompactionKeepsGet(hash, keys, files, ids, index, end, survivors, orders, moved, index', files2, files3, key);
    }
  }

  lemma ReopenAfter(files: Files, ids: seq<nat>, end: nat, survivors: seq<Location>, orders: seq<Order>,
                    out: Files, base: nat, n: nat, timestamp: nat, moved: seq<Location>, files3: Files)
    requires ReplayOrder(files, ids) && Newer(files, end) && Kept(files, ids, end, survivors, orders)
    requires Holds(out, base, n, timestamp, moved, orders) && Compacted(files3, files, end, out)
    requires n > 0 ==> Stamped(files, end, timestamp)
    ensures forall ids3, key :: ReplayOrder(files3, ids3) ==> SameAnswer(files, ids, files3, ids3, key)
  {
    forall ids3, key | ReplayOrder(files3, ids3)
      ensures SameAnswer(files, ids, files3, ids3, key)
    {
      CompactionThenReopen(files, ids, end, survivors, orders, out, base, n, timestamp, moved, files3, ids3, key);
    }
  }

  /** The steps of a compaction, from the selected files on; n is the number of new files. */
  method RunCompaction(hash: Key -> nat, files: Files, index: Index<Location>, base: nat, selected: set<nat>, end: nat,
                       full: seq<Order> -> bool)
    returns (files3: Files, index3: Index<Location>, n: nat, ghost run: Run)
    requires Sound(hash, files, index) && InUse(files, base, end)
    requires forall f :: f in selected ==> f in files && f <= end
    ensures IsRun(hash, files, index, base, selected, end, run, files3, index3) && n == run.n
    ensures forall id :: id in files3 ==> id <= base + n
  {
    var range, orders, timestamp;
    range, orders, timestamp, run := SelectOrders(hash, files, index, selected, end);
    var out, moved;
    out, n, moved := WriteFiles(orders, timestamp, base, full);
    run := run.(out := out, n := n, moved := moved);
    index3 := UpdateIndex(hash, index, orders, moved, end);
    files3 := Without(files + out, range);
  }

  /**
   * Every lookup gives what it gave, except that a key whose newest entry is a delete in the range has a
   * dangling bucket.
   */
  ghost predicate KeepsGets(hash: Key -> nat, keys: set<Key>, files: Files, index: Index<Location>, end: nat,
                            files3: Files, index3: Index<Location>)
  {
    forall key :: key in keys ==>
      Get(hash, files3, index3, key)
      == if EndsDeleted(hash, files, index, end, key) then Dangling else Get(hash, files, index, key)
  }

  /** Compaction of all files of the range. */
  lemma WholeRun(hash: Key -> nat, keys: set<Key>, files: Files, ids: seq<nat>, index: Index<Location>, base: nat,
                 selected: set<nat>, end: nat, run: Run, files3: Files, index3: Index<Location>)
    requires Scope(hash, keys, files, ids, index, end) && NonEmpty(files) && AllSelected(files, end, selected)
    requires IsRun(hash, files, index, base, selected, end, run, files3, index3) && InUse(files, base, end)
    ensures KeepsGets(hash, keys, files, index, end, files3, index3)
    ensures forall ids3, key :: ReplayOrder(files3, ids3) ==> SameAnswer(files, ids, files3, ids3, key)
  {
    SelectionKept(hash, keys, files, ids, index, selected, end, run);
    FilesAfter(files, run.out, base, run.n, run.timestamp, run.moved, run.orders, run.range, end);
    GetAfter(hash, keys, files, ids, index, end, run.kept, run.orders, run.moved, index3, files + run.out, files3);
    ReopenAfter(files, ids, end, run.kept, run.orders, run.out, base, run.n, run.timestamp, run.moved, files3);
  }

  class StorageEngine {
    const hash: Key -> nat
    var files: Files
    var index: Index<Location>
    var sequence: nat

    constructor (hash: Key -> nat)
      ensures this.hash == hash && files == map[] && index == map[]
    {
      this.hash := hash;
      files, index, sequence := map[], map[], 0;
    }

    /**
     * Compaction of some files up to `end`, and of the files up to `end` that share hashes with them;
     * `full` tells when a file takes no more entries. If all files up to `end` are selected, and the
     * others are newer, lookups are kept, except that deleted keys have dangling buckets, and
     * reopening the database gives what it would have given before.
     */
    method Compact(selected: set<nat>, end: nat, full: seq<Order> -> bool, ghost keys: set<Key>, ghost ids: seq<nat>)
      returns (ghost run: Run)
      requires Sound(hash, files, index) && InUse(files, sequence, end)
      requires forall f :: f in selected ==> f in files && f <= end
      modifies this
      ensures IsRun(hash, old(files), old(index), old(sequence), selected, end, run, files, index)
      ensures forall id :: id in files ==> id <= sequence
      ensures Scope(hash, keys, old(files), ids, old(index), end) && NonEmpty(old(files))
              && AllSelected(old(files), end, selected) ==>
                && KeepsGets(hash, keys, old(files), old(index), end, files, index)
                && forall ids3, key :: ReplayOrder(files, ids3) ==> SameAnswer(old(files), ids, files, ids3, key)
    {
      var n;
      files, index, n, run := RunCompaction(hash, files, index, sequence, selected, end, full);
      sequence := sequence + n;
      if Scope(hash, keys, old(files), ids, old(index), end) && NonEmpty(old(files))
        && AllSelected(old(files), end, selected) {
        WholeRun(hash, keys, old(files), ids, old(index), old(sequence), selected, end, run, files, index);
      }
    }
  }
}
