/**
 * Files of entries, the order in which they are replayed when a database is opened, and the index
 * that this builds. Offsets count entries, and keys in play have distinct hashes.
 */
module Storage {
  import opened Bytes
  import opened Orders

  datatype Location = Location(fileid: nat, offset: nat)

  datatype File = File(timestamp: nat, entries: seq<Order>)

  type Files = map<nat, File>

  predicate Exists(files: Files, l: Location)
  {
    l.fileid in files && l.offset < |files[l.fileid].entries|
  }

  function EntryAt(files: Files, l: Location): Order
    requires Exists(files, l)
  {
    files[l.fileid].entries[l.offset]
  }

  ghost predicate AllExist(files: Files, ls: seq<Location>)
  {
    forall i :: 0 <= i < |ls| ==> Exists(files, ls[i])
  }

  ghost function OrdersAt(files: Files, ls: seq<Location>): (r: seq<Order>)
    requires AllExist(files, ls)
    ensures |r| == |ls| && forall i :: 0 <= i < |ls| ==> r[i] == EntryAt(files, ls[i])
  {
    seq(|ls|, i requires 0 <= i < |ls| => EntryAt(files, ls[i]))
  }

  // ----- Replay -----

  ghost predicate AllIn(files: Files, ids: seq<nat>)
  {
    forall i :: 0 <= i < |ids| ==> ids[i] in files
  }

  function FileLocations(id: nat, n: nat): (r: seq<Location>)
    ensures |r| == n && forall i :: 0 <= i < n ==> r[i] == Location(id, i)
  {
    seq(n, i requires 0 <= i < n => Location(id, i))
  }

  /** The locations of all entries of some files, file by file. */
  ghost function Locations(files: Files, ids: seq<nat>): seq<Location>
    requires AllIn(files, ids)
    decreases |ids|
  {
    if ids == [] then []
    else
      var id := ids[|ids| - 1];
      Locations(files, ids[..|ids| - 1]) + FileLocations(id, |files[id].entries|)
  }

  ghost predicate NoDuplicates<T(!new)>(s: seq<T>)
  {
    forall i, j :: 0 <= i < j < |s| ==> s[i] != s[j]
  }

  lemma {:induction false} LocationsAre(files: Files, ids: seq<nat>)
    requires AllIn(files, ids)
    ensures AllExist(files, Locations(files, ids))
    ensures forall l :: l in Locations(files, ids) <==> l.fileid in ids && Exists(files, l)
    decreases |ids|
  {
    if ids != [] {
      var front, id := ids[..|ids| - 1], ids[|ids| - 1];
      LocationsAre(files, front);
      var last := FileLocations(id, |files[id].entries|);
      forall l
        ensures l in Locations(files, ids) <==> l.fileid in ids && Exists(files, l)
      {
        assert l.fileid in ids <==> l.fileid in front || l.fileid == id;
        assert l in last <==> l.fileid == id && Exists(files, l) by {
          if l.fileid == id && Exists(files, l) {
            assert last[l.offset] == l;
          }
        }
      }
    }
  }

  lemma {:induction false} LocationsDiffer(files: Files, ids: seq<nat>)
    requires AllIn(files, ids) && NoDuplicates(ids)
    ensures NoDuplicates(Locations(files, ids))
    decreases |ids|
  {
    if ids != [] {
      var front, id := ids[..|ids| - 1], ids[|ids| - 1];
      LocationsDiffer(files, front);
      LocationsAre(files, front);
      var a, last := Locations(files, front), FileLocations(id, |files[id].entries|);
      assert id !in front;
      forall i, j | 0 <= i < j < |a + last|
        ensures (a + last)[i] != (a + last)[j]
      {
        assert i < |a| ==> a[i] in a;
      }
    }
  }

  lemma {:induction false} LocationsJoin(files: Files, a: seq<nat>, b: seq<nat>)
    requires AllIn(files, a) && AllIn(files, b)
    ensures AllIn(files, a + b) && Locations(files, a + b) == Locations(files, a) + Locations(files, b)
    decreases |b|
  {
    if b == [] {
      assert a + b == a;
    } else {
      var front := b[..|b| - 1];
      assert (a + b)[..|a + b| - 1] == a + front;
      LocationsJoin(files, a, front);
      var id := b[|b| - 1];
      var last := FileLocations(id, |files[id].entries|);
      assert Locations(files, a + b) == Locations(files, a + front) + last;
      assert Locations(files, b) == Locations(files, front) + last;
    }
  }

  /** Files come one before another by timestamp, then by id. */
  predicate Before(files: Files, a: nat, b: nat)
    requires a in files && b in files
  {
    files[a].timestamp < files[b].timestamp || (files[a].timestamp == files[b].timestamp && a < b)
  }

  ghost predicate Sorted(files: Files, ids: seq<nat>)
  {
    AllIn(files, ids) && forall i, j :: 0 <= i < j < |ids| ==> Before(files, ids[i], ids[j])
  }

  /** The order in which opening a database goes through its files. */
  ghost predicate ReplayOrder(files: Files, ids: seq<nat>)
  {
    Sorted(files, ids) && forall id :: id in files <==> id in ids
  }

  lemma SortedDiffer(files: Files, ids: seq<nat>)
    requires Sorted(files, ids)
    ensures NoDuplicates(ids)
  {}

  lemma SameEmptiness(a: seq<nat>, b: seq<nat>)
    requires forall id :: id in a <==> id in b
    ensures a == [] <==> b == []
  {
    if a != [] {
      assert a[0] in b;
    }
    if b != [] {
      assert b[0] in a;
    }
  }

  /** There is one such order. */
  lemma {:induction false} SortedUnique(files: Files, a: seq<nat>, b: seq<nat>)
    requires Sorted(files, a) && Sorted(files, b) && forall id :: id in a <==> id in b
    ensures a == b
    decreases |a|
  {
    SameEmptiness(a, b);
    if a != [] {
      var n, m := |a| - 1, |b| - 1;
      assert a[n] in b && a[0] in b;
      assert b[m] in a;
      assert a[n] == b[m];
      forall id
        ensures id in a[..n] <==> id in b[..m]
      {
        assert id in a <==> id in a[..n] || id == a[n];
        assert id in b <==> id in b[..m] || id == b[m];
      }
      SortedUnique(files, a[..n], b[..m]);
      assert a == a[..n] + [a[n]] && b == b[..m] + [b[m]];
    }
  }

  /** A list with an id put where it belongs is sorted. */
  lemma SortedInsert(files: Files, a: seq<nat>, id: nat, b: seq<nat>)
    requires AllIn(files, a) && AllIn(files, b) && Sorted(files, a + b) && id in files
    requires (forall i :: 0 <= i < |a| ==> Before(files, a[i], id))
    requires (forall i :: 0 <= i < |b| ==> Before(files, id, b[i]))
    ensures Sorted(files, a + [id] + b)
  {
    var s, r := a + b, a + [id] + b;
    assert forall i :: 0 <= i < |a| ==> s[i] == a[i] == r[i];
    assert forall i :: 0 <= i < |b| ==> s[|a| + i] == b[i] == r[|a| + 1 + i];
    assert r[|a|] == id;
  }

  /** Insertion into a sorted list. */
  method InsertSorted(files: Files, ids: seq<nat>, id: nat) returns (r: seq<nat>)
    requires Sorted(files, ids) && id in files && id !in ids
    ensures Sorted(files, r) && forall x :: x in r <==> x in ids || x == id
  {
    var i := |ids|;
    while i > 0 && Before(files, id, ids[i - 1])
      invariant 0 <= i <= |ids|
      invariant forall j :: i <= j < |ids| ==> Before(files, id, ids[j])
    {
      i := i - 1;
    }
    var a, b := ids[..i], ids[i..];
    assert ids == a + b;
    assert i > 0 ==> ids[i - 1] in ids;
    SortedInsert(files, a, id, b);
    r := a + [id] + b;
  }

  /** The files of a database, sorted by timestamp and id. */
  method LoadOrder(files: Files) returns (ids: seq<nat>)
    ensures ReplayOrder(files, ids)
  {
    ids := [];
    var left := files.Keys;
    while left != {}
      invariant left <= files.Keys && Sorted(files, ids)
      invariant forall id :: id in files <==> id in ids || id in left
      invariant forall id :: id in left ==> id !in ids
      decreases |left|
    {
      var id :| id in left;
      ids := InsertSorted(files, ids, id);
      left := left - {id};
    }
  }

  // ----- The index -----

  function Pick<T>(s: seq<T>, ps: seq<nat>): (r: seq<T>)
    requires forall i :: 0 <= i < |ps| ==> ps[i] < |s|
    ensures |r| == |ps| && forall i :: 0 <= i < |ps| ==> r[i] == s[ps[i]]
  {
    seq(|ps|, i requires 0 <= i < |ps| => s[ps[i]])
  }

  ghost function Where(hash: Key -> nat, files: Files, ls: seq<Location>, h: nat): (ps: seq<nat>)
    requires AllExist(files, ls)
    ensures forall p :: p in ps <==> 0 <= p < |ls| && hash(EntryAt(files, ls[p]).key) == h
    ensures Increasing(ps)
  {
    PositionsAre(hash, OrdersAt(files, ls), h, 0, |ls|);
    Positions(hash, OrdersAt(files, ls), h, 0, |ls|)
  }

  ghost function InBucket(hash: Key -> nat, files: Files, ls: seq<Location>, h: nat): seq<Location>
    requires AllExist(files, ls)
  {
    var ps := Where(hash, files, ls, h);
    assert forall i :: 0 <= i < |ps| ==> ps[i] in ps;
    Pick(ls, ps)
  }

  /** Each bucket lists the locations of the entries with its hash, in the order given. */
  ghost predicate Indexed(hash: Key -> nat, files: Files, ls: seq<Location>, index: Index<Location>)
  {
    && AllExist(files, ls)
    && forall h :: Bucket(index, h) == InBucket(hash, files, ls, h)
  }

  lemma InBucketSnoc(hash: Key -> nat, files: Files, ls: seq<Location>, l: Location, h: nat)
    requires AllExist(files, ls) && Exists(files, l)
    ensures AllExist(files, ls + [l])
    ensures InBucket(hash, files, ls + [l], h)
         == InBucket(hash, files, ls, h) + if hash(EntryAt(files, l).key) == h then [l] else []
  {
    var more := ls + [l];
    assert forall i :: 0 <= i < |ls| ==> ls[i] == more[i];
    assert more[|ls|] == l;
    assert OrdersAt(files, more) == OrdersAt(files, ls) + [EntryAt(files, l)];
    PositionsPrefix(hash, OrdersAt(files, ls), [EntryAt(files, l)], h, |ls|);
  }

  /** The rows of a file are inserted in order, after those of the files before it. */
  method LoadFile(hash: Key -> nat, files: Files, id: nat, index0: Index<Location>, ghost ls: seq<Location>)
    returns (index: Index<Location>)
    requires id in files && Indexed(hash, files, ls, index0)
    ensures Indexed(hash, files, ls + FileLocations(id, |files[id].entries|), index)
  {
    index := index0;
    var entries := files[id].entries;
    ghost var done := ls;
    assert ls + FileLocations(id, 0) == ls;
    for i := 0 to |entries|
      invariant done == ls + FileLocations(id, i) && Indexed(hash, files, done, index)
    {
      var l := Location(id, i);
      assert FileLocations(id, i + 1) == FileLocations(id, i) + [l];
      assert done + [l] == ls + FileLocations(id, i + 1);
      forall h
        ensures InBucket(hash, files, done + [l], h)
             == InBucket(hash, files, done, h) + if hash(entries[i].key) == h then [l] else []
      {
        InBucketSnoc(hash, files, done, l, h);
      }
      index := Insert(index, hash(entries[i].key), l);
      done := done + [l];
    }
  }

  /** LoadDatabase: the files are loaded in replay order. */
  method LoadDatabase(hash: Key -> nat, files: Files) returns (index: Index<Location>, ids: seq<nat>)
    ensures ReplayOrder(files, ids) && Indexed(hash, files, Locations(files, ids), index)
  {
    ids := LoadOrder(files);
    index := map[];
    var i := 0;
    while i < |ids|
      invariant 0 <= i <= |ids| && AllIn(files, ids[..i]) && Indexed(hash, files, Locations(files, ids[..i]), index)
    {
      index := LoadFile(hash, files, ids[i], index, Locations(files, ids[..i]));
      assert ids[..i + 1][..i] == ids[..i];
      i := i + 1;
    }
    assert ids[..|ids|] == ids;
  }

  // ----- Lookups -----

  /** What a walk through a bucket comes to: what a location gave, the end of it, or a place outside of the bucket. */
  datatype Walked<A> = Hit(answer: A) | Missed | RunsOut

  /**
   * The loop of GetWithIndex, from a position of a bucket backwards, over what each location gives. It ends
   * before the first location of a longer bucket, and leaves a bucket of one if that gives nothing.
   */
  function Walk<L, A>(read: L -> Option<A>, bucket: seq<L>, i: nat): Walked<A>
    requires i < |bucket|
    decreases i
  {
    if read(bucket[i]).Some? then Hit(read(bucket[i]).value)
    else if i == 0 then RunsOut
    else if i == 1 then Missed
    else Walk(read, bucket, i - 1)
  }

  /** The walk through a whole bucket. */
  function WalkAll<L, A>(read: L -> Option<A>, bucket: seq<L>): Walked<A>
  {
    if bucket == [] then Missed else Walk(read, bucket, |bucket| - 1)
  }

  /** The locations that the walk tries: all but the first, or the only one. */
  predicate Tried(n: nat, p: nat)
  {
    p < n && (p > 0 || n == 1)
  }

  /** The walk gives what the last location gives among those tried that give something. */
  lemma {:induction false} WalkIs<L, A>(read: L -> Option<A>, bucket: seq<L>, i: nat, p: nat)
    requires i < |bucket| && (i > 0 || |bucket| == 1)
    requires Tried(|bucket|, p) && p <= i && forall q :: p < q <= i ==> read(bucket[q]).None?
    ensures read(bucket[p]).Some? ==> Walk(read, bucket, i) == Hit(read(bucket[p]).value)
    ensures read(bucket[p]).None? && p <= 1 ==> Walk(read, bucket, i) == if |bucket| == 1 then RunsOut else Missed
    decreases i
  {
    if p < i {
      WalkIs(read, bucket, i - 1, p);
    }
  }

  lemma WalkLast<L, A>(read: L -> Option<A>, bucket: seq<L>, answer: A)
    requires bucket != [] && read(bucket[|bucket| - 1]) == Some(answer)
    ensures WalkAll(read, bucket) == Hit(answer)
  {}

  /** The walk through a whole bucket of which it is known which locations give something, and what. */
  lemma WalkOf<L, A>(read: L -> Option<A>, bucket: seq<L>, reached: nat -> bool, answers: nat -> A, p: nat)
    requires Tried(|bucket|, p) && forall q: nat :: p < q < |bucket| ==> !reached(q)
    requires forall q: nat :: p <= q < |bucket| ==> read(bucket[q]) == if reached(q) then Some(answers(q)) else None
    ensures if reached(p) then WalkAll(read, bucket) == Hit(answers(p))
            else p <= 1 ==> WalkAll(read, bucket) == if |bucket| == 1 then RunsOut else Missed
  {
    WalkIs(read, bucket, |bucket| - 1, p);
  }

  /** A file that is not there is read through a map that is not there. */
  datatype Answer = Found(value: Value) | Deleted | NotFound | Dangling | OutOfBucket

  /** GetWithIndex: the walk through the bucket of a key. */
  function Get(hash: Key -> nat, files: Files, index: Index<Location>, key: Key): Answer
  {
    match WalkAll((l: Location) => Read(files, l, key), Bucket(index, hash(key)))
    case Hit(answer) => answer
    case Missed => NotFound
    case RunsOut => OutOfBucket
  }

  /** What a location gives for a key: nothing, if its entry has another. */
  function Read(files: Files, l: Location, key: Key): Option<Answer>
  {
    if !Exists(files, l) then Some(Dangling)
    else if EntryAt(files, l).key != key then None
    else match EntryAt(files, l)
      case Put(_, value) => Some(Found(value))
      case Delete(_) => Some(Deleted)
  }

  /** The last location of a bucket decides, if it gives anything. */
  lemma GetLast(hash: Key -> nat, files: Files, index: Index<Location>, key: Key)
    requires Bucket(index, hash(key)) != []
    ensures var bucket := Bucket(index, hash(key));
            var r := Read(files, bucket[|bucket| - 1], key);
            r.Some? ==> Get(hash, files, index, key) == r.value
  {}

  ghost predicate KeysIn(files: Files, keys: set<Key>)
  {
    forall l :: Exists(files, l) ==> EntryAt(files, l).key in keys
  }

  function AnswerOf(last: Option<Order>): Answer
  {
    match last
    case None => NotFound
    case Some(Put(_, value)) => Found(value)
    case Some(Delete(_)) => Deleted
  }

  ghost function LastEntry(files: Files, ls: seq<Location>, key: Key): Option<Order>
    requires AllExist(files, ls)
  {
    var orders := OrdersAt(files, ls);
    match LastOrder(orders, key)
    case None => None
    case Some(p) => Some(orders[p])
  }

  /** The last location of a bucket is that of the last entry for the key. */
  lemma GetReadsLast(hash: Key -> nat, files: Files, ls: seq<Location>, index: Index<Location>, keys: set<Key>,
                     key: Key)
    requires Indexed(hash, files, ls, index) && KeysIn(files, keys) && Distinct(hash, keys) && key in keys
    ensures Get(hash, files, index, key) == AnswerOf(LastEntry(files, ls, key))
  {
    LastPosition(hash, keys, OrdersAt(files, ls), key);
    assert Bucket(index, hash(key)) == InBucket(hash, files, ls, hash(key));
  }
}
