/**
 * Lookups that compaction changes: what the conditions of module Compaction rule out, on directories of two
 * and three files.
 */
module CompactionCases {
  import opened Bytes
  import opened Orders
  import opened Storage
  import opened Compaction

  // ----- A key goes back to an older value -----

  /** Two files, the second newer, each with a put of the same key. */
  ghost predicate TwoPuts(hash: Key -> nat, k: Key, a: Value, b: Value, files: Files, index: Index<Location>)
  {
    && files == map[1 := File(1, [Put(k, a)]), 2 := File(2, [Put(k, b)])]
    && index == map[hash(k) := [Location(1, 0), Location(2, 0)]]
  }

  lemma TwoPutsAt(hash: Key -> nat, k: Key, a: Value, b: Value, files: Files, index: Index<Location>)
    requires TwoPuts(hash, k, a, b, files, index)
    ensures Locations(files, [1, 2]) == [Location(1, 0), Location(2, 0)]
  {
    assert [1, 2][..1] == [1] && [1][..0] == [];
    assert Locations(files, [1]) == Locations(files, []) + FileLocations(1, 1);
  }

  /** It is as a database is opened, and file 2 is newer than file 1, so that a compaction of file 1 keeps lookups. */
  lemma TwoPutsScope(hash: Key -> nat, k: Key, a: Value, b: Value, files: Files, index: Index<Location>)
    requires TwoPuts(hash, k, a, b, files, index)
    ensures Scope(hash, {k}, files, [1, 2], index, 1) && NonEmpty(files) && AllSelected(files, 1, {1})
  {
    TwoPutsAt(hash, k, a, b, files, index);
    TwoPutsIndexed(hash, k, a, b, files, index);
  }

  lemma TwoPutsIndexed(hash: Key -> nat, k: Key, a: Value, b: Value, files: Files, index: Index<Location>)
    requires TwoPuts(hash, k, a, b, files, index)
    ensures Indexed(hash, files, [Location(1, 0), Location(2, 0)], index)
  {
    var ls := [Location(1, 0), Location(2, 0)];
    forall h
      ensures Bucket(index, h) == InBucket(hash, files, ls, h)
    {
      var orders := OrdersAt(files, ls);
      assert Positions(hash, orders, h, 0, 0) == [];
      assert Positions(hash, orders, h, 0, 1) == if hash(k) == h then [0] else [];
      assert Positions(hash, orders, h, 0, 2) == if hash(k) == h then [0, 1] else [];
    }
  }

  /** Only the put in the first file survives the first compaction. */
  lemma OlderSurvives(hash: Key -> nat, k: Key, a: Value, b: Value, files: Files, index: Index<Location>,
                      kept: seq<Location>, orders: seq<Order>)
    requires TwoPuts(hash, k, a, b, files, index) && Kept(files, [1, 2], 1, kept, orders)
    ensures hash(k) in Hashes(hash, orders) && forall i :: 0 <= i < |orders| ==> orders[i] == Put(k, a)
  {
    var ls := Locations(files, [1, 2]);
    TwoPutsAt(hash, k, a, b, files, index);
    assert NewestPut(files, ls, 1, 0);
    assert ls[0] in kept;
    forall i | 0 <= i < |orders|
      ensures orders[i] == Put(k, a)
    {
      assert SurvivesAt(files, ls, 1, kept[i]);
    }
    var i :| 0 <= i < |kept| && kept[i] == ls[0];
    assert orders[i].key == k;
  }

  lemma AfterFirst()
    ensures After([Location(1, 0), Location(2, 0)], 1) == [Location(2, 0)]
  {
    var bucket := [Location(1, 0), Location(2, 0)];
    assert bucket[..1] == [Location(1, 0)];
    AfterNone(bucket[..1], 1);
  }

  lemma FirstSelects(hash: Key -> nat, k: Key, a: Value, b: Value, files: Files, index: Index<Location>, run: Run)
    requires TwoPuts(hash, k, a, b, files, index) && Selects(hash, files, index, {1}, 1, run)
    ensures hash(k) in Hashes(hash, run.orders) && forall i :: 0 <= i < |run.orders| ==> run.orders[i] == Put(k, a)
    ensures forall f: nat :: f in run.range <==> f in files && f <= 1
  {
    TwoPutsScope(hash, k, a, b, files, index);
    SelectionKept(hash, {k}, files, [1, 2], index, {1}, 1, run);
    OlderSurvives(hash, k, a, b, files, index, run.kept, run.orders);
  }

  lemma FirstKeepsGet(hash: Key -> nat, k: Key, a: Value, b: Value, files: Files, index: Index<Location>, run: Run,
                      files1: Files, index1: Index<Location>)
    requires TwoPuts(hash, k, a, b, files, index) && IsRun(hash, files, index, 2, {1}, 1, run, files1, index1)
    ensures Get(hash, files, index, k) == Get(hash, files1, index1, k) == Found(b)
  {
    TwoPutsScope(hash, k, a, b, files, index);
    WholeRun(hash, {k}, files, [1, 2], index, 2, {1}, 1, run, files1, index1);
    assert !EndsDeleted(hash, files, index, 1, k);
  }

  /** A bucket that ends with the put of a key in file 2, after one in a later file. */
  ghost predicate OutOfOrder(hash: Key -> nat, k: Key, a: Value, b: Value, files: Files, index: Index<Location>,
                             news: seq<Location>)
  {
    && 2 in files && files[2].entries == [Put(k, b)] && Bucket(index, hash(k)) == news + [Location(2, 0)]
    && news != [] && (forall l :: l in news ==> l.fileid > 2) && Exists(files, Last(news))
    && EntryAt(files, Last(news)) == Put(k, a)
  }

  /** The first compaction keeps the older put, and moves it behind the range of the next. */
  lemma OlderIsMoved(hash: Key -> nat, k: Key, a: Value, b: Value, files: Files, index: Index<Location>, run: Run,
                     files1: Files, index1: Index<Location>)
    requires TwoPuts(hash, k, a, b, files, index) && IsRun(hash, files, index, 2, {1}, 1, run, files1, index1)
    ensures |run.orders| == |run.moved| && InUse(files1, 2 + run.n, 2)
    ensures OutOfOrder(hash, k, a, b, files1, index1, NewLocations(hash, run.orders, run.moved, hash(k)))
  {
    FirstRun(hash, k, a, b, files, index, run, files1, index1);
    FirstFiles(hash, k, a, b, files, index, run);
    FirstBucket(hash, k, a, b, files, index, run, index1);
  }

  lemma FirstRun(hash: Key -> nat, k: Key, a: Value, b: Value, files: Files, index: Index<Location>, run: Run,
                 files1: Files, index1: Index<Location>)
    requires TwoPuts(hash, k, a, b, files, index) && IsRun(hash, files, index, 2, {1}, 1, run, files1, index1)
    ensures Moves(files, 2, 1, run) && forall f: nat :: f in run.range <==> f in files && f <= 1
    ensures hash(k) in Hashes(hash, run.orders) && forall i :: 0 <= i < |run.orders| ==> run.orders[i] == Put(k, a)
  {
    FirstSelects(hash, k, a, b, files, index, run);
    RunMoves(hash, files, index, 2, {1}, 1, run, files1, index1);
  }

  /** The older put in the index. */
  lemma FirstBucket(hash: Key -> nat, k: Key, a: Value, b: Value, files: Files, index: Index<Location>, run: Run,
                    index1: Index<Location>)
    requires TwoPuts(hash, k, a, b, files, index) && Moves(files, 2, 1, run) && hash(k) in Hashes(hash, run.orders)
    requires Updated(hash, index, run.orders, run.moved, 1, Hashes(hash, run.orders), index1)
    ensures var news := NewLocations(hash, run.orders, run.moved, hash(k));
            Bucket(index1, hash(k)) == news + [Location(2, 0)] && news != [] && forall l :: l in news ==> l.fileid > 2
  {
    var j := LastNew(hash, run.orders, run.moved, hash(k));
    NewAreMoved(hash, run.orders, run.moved, hash(k));
    AfterFirst();
  }

  /** The older put in the new files. */
  lemma FirstFiles(hash: Key -> nat, k: Key, a: Value, b: Value, files: Files, index: Index<Location>, run: Run)
    requires TwoPuts(hash, k, a, b, files, index) && Moves(files, 2, 1, run)
    requires forall f: nat :: f in run.range <==> f in files && f <= 1
    requires hash(k) in Hashes(hash, run.orders) && forall i :: 0 <= i < |run.orders| ==> run.orders[i] == Put(k, a)
    requires Holds(run.out, 2, run.n, run.timestamp, run.moved, run.orders)
    ensures var files1, news := Without(files + run.out, run.range), NewLocations(hash, run.orders, run.moved, hash(k));
            && InUse(files1, 2 + run.n, 2) && 2 in files1 && files1[2].entries == [Put(k, b)]
            && news != [] && Exists(files1, Last(news)) && EntryAt(files1, Last(news)) == Put(k, a)
  {
    var j := LastNew(hash, run.orders, run.moved, hash(k));
    assert run.moved[j] in run.moved && EntryAt(run.out, run.moved[j]) == run.orders[j];
  }

  /** The hash of the key is the only one in a file. */
  lemma OnlyHash(hash: Key -> nat, k: Key, b: Value, files: Files, hashes: seq<nat>)
    requires Gathers(hash, files, {2}, hashes) && 2 in files && files[2].entries == [Put(k, b)]
    ensures forall h :: h in hashes <==> h == hash(k)
  {
    assert Exists(files, Location(2, 0));
    assert HashIn(hash, files, {2}, hash(k));
  }

  /** What alone lies in the range, and is a put, is not deleted. */
  lemma AloneStays(files: Files, index: Index<Location>, h: nat, news: seq<Location>, l: Location, end: nat)
    requires Bucket(index, h) == news + [l] && Exists(files, l) && EntryAt(files, l).Put?
    requires forall m :: m in news ==> m.fileid > end
    ensures !DoomedIn(files, index, end, h, l)
  {
    var bucket := Bucket(index, h);
    assert forall i :: 0 <= i < |news| ==> bucket[i] in news;
  }

  /** The newer put is kept by the second compaction. */
  lemma NewerIsKept(hash: Key -> nat, k: Key, a: Value, b: Value, files: Files, index: Index<Location>, base: nat,
                    news: seq<Location>, run: Run)
    requires Selects(hash, files, index, {2}, 2, run) && Moves(files, base, 2, run)
    requires OutOfOrder(hash, k, a, b, files, index, news)
    ensures hash(k) in Hashes(hash, run.orders)
  {
    var l, bucket := Location(2, 0), Bucket(index, hash(k));
    OnlyHash(hash, k, b, files, run.hashes);
    AloneStays(files, index, hash(k), news, l, 2);
    assert bucket[|news|] == l && FileIn(index, hash(k), 2);
    assert Pulled(index, run.hashes, 2);
    assert l in run.kept;
    var i :| 0 <= i < |run.kept| && run.kept[i] == l;
    assert run.orders[i].key == k;
  }

  /** The bucket then ends with what the first compaction moved. */
  lemma SecondBucket(hash: Key -> nat, index: Index<Location>, orders: seq<Order>, moved: seq<Location>,
                     news: seq<Location>, index2: Index<Location>, h: nat)
    requires Updated(hash, index, orders, moved, 2, Hashes(hash, orders), index2) && h in Hashes(hash, orders)
    requires Bucket(index, h) == news + [Location(2, 0)] && news != [] && forall l :: l in news ==> l.fileid > 2
    ensures Bucket(index2, h) != [] && Last(Bucket(index2, h)) == Last(news)
  {
    AfterJoin(news, [Location(2, 0)], 2);
    AfterAll(news, 2);
    AfterNone([Location(2, 0)], 2);
  }

  /** The second compaction makes the older put the last. */
  lemma OlderComesLast(hash: Key -> nat, k: Key, a: Value, b: Value, files: Files, index: Index<Location>, base: nat,
                       news: seq<Location>, run: Run, files2: Files, index2: Index<Location>)
    requires OutOfOrder(hash, k, a, b, files, index, news) && InUse(files, base, 2)
    requires IsRun(hash, files, index, base, {2}, 2, run, files2, index2)
    ensures Get(hash, files2, index2, k) == Found(a)
  {
    RunMoves(hash, files, index, base, {2}, 2, run, files2, index2);
    NewerIsKept(hash, k, a, b, files, index, base, news, run);
    SecondBucket(hash, index, run.orders, run.moved, news, index2, hash(k));
    assert Last(news) in news;
    OldStaysThere(files, base, 2, run, Last(news));
  }

  /**
   * Two compactions can bring back an older entry. The first moves the older put of a key to a file
   * after the range of the second, which then counts it as newer than the put that it rewrites.
   */
  lemma LookupCanGoBack(hash: Key -> nat, k: Key, a: Value, b: Value, files: Files, index: Index<Location>, run1: Run,
                        files1: Files, index1: Index<Location>, run2: Run, files2: Files, index2: Index<Location>)
    requires TwoPuts(hash, k, a, b, files, index) && IsRun(hash, files, index, 2, {1}, 1, run1, files1, index1)
    requires IsRun(hash, files1, index1, 2 + run1.n, {2}, 2, run2, files2, index2)
    ensures Get(hash, files, index, k) == Get(hash, files1, index1, k) == Found(b)
    ensures Get(hash, files2, index2, k) == Found(a)
  {
    FirstKeepsGet(hash, k, a, b, files, index, run1, files1, index1);
    OlderComesBack(hash, k, a, b, files, index, run1, files1, index1, 2 + run1.n, run2, files2, index2);
  }

  lemma OlderComesBack(hash: Key -> nat, k: Key, a: Value, b: Value, files: Files, index: Index<Location>, run1: Run,
                       files1: Files, index1: Index<Location>, base: nat, run2: Run, files2: Files,
                       index2: Index<Location>)
    requires TwoPuts(hash, k, a, b, files, index) && IsRun(hash, files, index, 2, {1}, 1, run1, files1, index1)
    requires base == 2 + run1.n && IsRun(hash, files1, index1, base, {2}, 2, run2, files2, index2)
    ensures Get(hash, files2, index2, k) == Found(a)
  {
    OlderIsMoved(hash, k, a, b, files, index, run1, files1, index1);
    OlderComesLast(hash, k, a, b, files1, index1, base, NewLocations(hash, run1.orders, run1.moved, hash(k)), run2,
                   files2, index2);
  }

  /** What the first compaction wrote for the key reads as the older put. */
  lemma NewReadsOlder(hash: Key -> nat, k: Key, a: Value, files: Files, run: Run, l: Location)
    requires Moves(files, 2, 1, run) && Holds(run.out, 2, run.n, run.timestamp, run.moved, run.orders)
    requires l in run.moved && forall i :: 0 <= i < |run.orders| ==> run.orders[i] == Put(k, a)
    ensures Exists(Without(files + run.out, run.range), l) && EntryAt(Without(files + run.out, run.range), l).key == k
  {
    var i :| 0 <= i < |run.moved| && run.moved[i] == l;
    NewIsThere(files, 2, 1, run, i);
  }

  lemma OtherBuckets(hash: Key -> nat, k: Key, a: Value, b: Value, files: Files, index: Index<Location>, run: Run,
                     index1: Index<Location>, h: nat)
    requires TwoPuts(hash, k, a, b, files, index) && h != hash(k)
    requires forall i :: 0 <= i < |run.orders| ==> run.orders[i] == Put(k, a)
    requires Updated(hash, index, run.orders, run.moved, 1, Hashes(hash, run.orders), index1)
    ensures Bucket(index1, h) == []
  {
    assert h !in Hashes(hash, run.orders);
  }

  /** The key has a bucket, and no other has. */
  ghost predicate OnlyBucket(hash: Key -> nat, k: Key, index: Index<Location>, news: seq<Location>, l: Location)
  {
    Bucket(index, hash(k)) == news + [l] && forall h :: h != hash(k) ==> Bucket(index, h) == []
  }

  lemma SoundFrom(hash: Key -> nat, k: Key, files: Files, index: Index<Location>, news: seq<Location>, l: Location)
    requires OnlyBucket(hash, k, index, news, l) && Exists(files, l) && EntryAt(files, l).key == k
    requires forall m :: m in news ==> Exists(files, m) && EntryAt(files, m).key == k
    ensures Sound(hash, files, index)
  {}

  /** After the first compaction the index is sound, so that a second can start. */
  lemma FirstSound(hash: Key -> nat, k: Key, a: Value, b: Value, files: Files, index: Index<Location>, run: Run,
                   files1: Files, index1: Index<Location>)
    requires TwoPuts(hash, k, a, b, files, index) && IsRun(hash, files, index, 2, {1}, 1, run, files1, index1)
    ensures Sound(hash, files1, index1)
  {
    FirstRun(hash, k, a, b, files, index, run, files1, index1);
    FirstFiles(hash, k, a, b, files, index, run);
    FirstBuckets(hash, k, a, b, files, index, run, index1);
    FirstReads(hash, k, a, files, run);
    SoundFrom(hash, k, files1, index1, NewLocations(hash, run.orders, run.moved, hash(k)), Location(2, 0));
  }

  lemma FirstBuckets(hash: Key -> nat, k: Key, a: Value, b: Value, files: Files, index: Index<Location>, run: Run,
                     index1: Index<Location>)
    requires TwoPuts(hash, k, a, b, files, index) && Moves(files, 2, 1, run) && hash(k) in Hashes(hash, run.orders)
    requires forall i :: 0 <= i < |run.orders| ==> run.orders[i] == Put(k, a)
    requires Updated(hash, index, run.orders, run.moved, 1, Hashes(hash, run.orders), index1)
    ensures OnlyBucket(hash, k, index1, NewLocations(hash, run.orders, run.moved, hash(k)), Location(2, 0))
  {
    FirstBucket(hash, k, a, b, files, index, run, index1);
    forall h | h != hash(k)
      ensures Bucket(index1, h) == []
    {
      OtherBuckets(hash, k, a, b, files, index, run, index1, h);
    }
  }

  lemma FirstReads(hash: Key -> nat, k: Key, a: Value, files: Files, run: Run)
    requires Moves(files, 2, 1, run) && Holds(run.out, 2, run.n, run.timestamp, run.moved, run.orders)
    requires forall i :: 0 <= i < |run.orders| ==> run.orders[i] == Put(k, a)
    ensures var files1 := Without(files + run.out, run.range);
            forall l :: l in NewLocations(hash, run.orders, run.moved, hash(k)) ==>
              Exists(files1, l) && EntryAt(files1, l).key == k
  {
    NewAreMoved(hash, run.orders, run.moved, hash(k));
    forall l | l in NewLocations(hash, run.orders, run.moved, hash(k))
      ensures Exists(Without(files + run.out, run.range), l) && EntryAt(Without(files + run.out, run.range), l).key == k
    {
      NewReadsOlder(hash, k, a, files, run, l);
    }
  }

  /** The first compaction, as it runs. */
  method CompactFirst(hash: Key -> nat, k: Key, a: Value, b: Value, files: Files, index: Index<Location>,
                      full: seq<Order> -> bool)
    returns (files1: Files, index1: Index<Location>, n: nat, ghost run: Run)
    requires TwoPuts(hash, k, a, b, files, index)
    ensures IsRun(hash, files, index, 2, {1}, 1, run, files1, index1) && n == run.n
    ensures Sound(hash, files1, index1) && InUse(files1, 2 + n, 2) && 2 in files1
  {
    TwoPutsScope(hash, k, a, b, files, index);
    IndexedIsSound(hash, files, Locations(files, [1, 2]), index);
    files1, index1, n, run := RunCompaction(hash, files, index, 2, {1}, 1, full);
    FirstSound(hash, k, a, b, files, index, run, files1, index1);
    OlderIsMoved(hash, k, a, b, files, index, run, files1, index1);
  }

  /** The two compactions, as they run: such runs exist, whatever makes a file full. */
  method CompactTwice(hash: Key -> nat, k: Key, a: Value, b: Value, files: Files, index: Index<Location>,
                      full: seq<Order> -> bool)
    returns (files1: Files, index1: Index<Location>, files2: Files, index2: Index<Location>, ghost run1: Run,
             ghost run2: Run)
    requires TwoPuts(hash, k, a, b, files, index)
    ensures IsRun(hash, files, index, 2, {1}, 1, run1, files1, index1)
    ensures IsRun(hash, files1, index1, 2 + run1.n, {2}, 2, run2, files2, index2)
  {
    var n, m;
    files1, index1, n, run1 := CompactFirst(hash, k, a, b, files, index, full);
    files2, index2, m, run2 := RunCompaction(hash, files1, index1, 2 + n, {2}, 2, full);
  }

  /** What is looked up before, between and after them. */
  method GoBack(hash: Key -> nat, k: Key, a: Value, b: Value, files: Files, index: Index<Location>,
                full: seq<Order> -> bool)
    returns (between: Answer, after: Answer)
    requires TwoPuts(hash, k, a, b, files, index)
    ensures Get(hash, files, index, k) == between == Found(b) && after == Found(a)
  {
    var files1, index1, files2, index2, run1, run2 := CompactTwice(hash, k, a, b, files, index, full);
    LookupCanGoBack(hash, k, a, b, files, index, run1, files1, index1, run2, files2, index2);
    between := Get(hash, files1, index1, k);
    after := Get(hash, files2, index2, k);
  }

  // ----- A newer value is lost -----

  /** Two compacted files with a key k, of which only the older shares another key x with a third file. */
  ghost predicate ThreeFiles(hash: Key -> nat, k: Key, x: Key, files: Files, index: Index<Location>, a: Value, b: Value,
                             c: Value, d: Value)
  {
    && files == map[1 := File(1, [Put(k, a), Put(x, c)]), 2 := File(2, [Put(k, b)]), 3 := File(3, [Put(x, d)])]
    && index == map[hash(k) := [Location(1, 0), Location(2, 0)], hash(x) := [Location(1, 1), Location(3, 0)]]
    && hash(k) != hash(x)
  }

  lemma ThreeFilesSound(hash: Key -> nat, k: Key, x: Key, files: Files, index: Index<Location>, a: Value, b: Value,
                        c: Value, d: Value)
    requires ThreeFiles(hash, k, x, files, index, a, b, c, d)
    ensures Sound(hash, files, index) && InUse(files, 3, 3)
  {}

  lemma ThreeFilesGet(hash: Key -> nat, k: Key, x: Key, files: Files, index: Index<Location>, a: Value, b: Value,
                      c: Value, d: Value)
    requires ThreeFiles(hash, k, x, files, index, a, b, c, d)
    ensures Get(hash, files, index, k) == Found(b) && After(Bucket(index, hash(k)), 3) == []
  {
    AfterNone(Bucket(index, hash(k)), 3);
  }

  /** The hash of x is the only one in the third file, so the second file is not compacted. */
  lemma SecondIsLeft(hash: Key -> nat, k: Key, x: Key, files: Files, index: Index<Location>, a: Value, b: Value,
                     c: Value, d: Value, run: Run)
    requires ThreeFiles(hash, k, x, files, index, a, b, c, d) && Selects(hash, files, index, {3}, 3, run)
    ensures hash(k) !in run.hashes && forall f: nat :: f in run.range <==> f == 1 || f == 3
  {
    assert Exists(files, Location(3, 0));
    assert HashIn(hash, files, {3}, hash(x));
    assert forall h :: h in run.hashes <==> h == hash(x);
    var bucket := Bucket(index, hash(x));
    assert bucket[0] in bucket && bucket[1] in bucket;
    assert FileIn(index, hash(x), 1) && FileIn(index, hash(x), 3);
    assert forall f: nat :: Pulled(index, run.hashes, f) <==> FileIn(index, hash(x), f);
  }

  /** The older put of k is kept, and no other. */
  lemma OlderIsKept(hash: Key -> nat, k: Key, x: Key, files: Files, index: Index<Location>, a: Value, b: Value,
                    c: Value, d: Value, run: Run)
    requires ThreeFiles(hash, k, x, files, index, a, b, c, d) && Moves(files, 3, 3, run)
    requires PutsAt(files, run.kept, run.orders)
    requires Location(1, 0) in run.kept && forall f: nat :: f in run.range <==> f == 1 || f == 3
    ensures hash(k) in Hashes(hash, run.orders)
    ensures forall i :: 0 <= i < |run.orders| && hash(run.orders[i].key) == hash(k) ==> run.orders[i] == Put(k, a)
  {
    var i :| 0 <= i < |run.kept| && run.kept[i] == Location(1, 0);
    assert run.orders[i] == Put(k, a);
    forall i | 0 <= i < |run.orders| && hash(run.orders[i].key) == hash(k)
      ensures run.orders[i] == Put(k, a)
    {
      assert run.kept[i] in run.kept;
    }
  }

  /** The last order for k is the older put. */
  ghost predicate OlderLast(hash: Key -> nat, k: Key, a: Value, run: Run)
  {
    && hash(k) in Hashes(hash, run.orders)
    && forall i :: 0 <= i < |run.orders| && hash(run.orders[i].key) == hash(k) ==> run.orders[i] == Put(k, a)
  }

  lemma FirstPutKept(hash: Key -> nat, k: Key, x: Key, files: Files, index: Index<Location>, a: Value, b: Value,
                     c: Value, d: Value, run: Run)
    requires ThreeFiles(hash, k, x, files, index, a, b, c, d) && Moves(files, 3, 3, run)
    requires Classified(hash, files, index, run.hashes, 3, run.deleted) && hash(k) !in run.hashes && 1 in run.range
    ensures Location(1, 0) in run.kept
  {
    ThreeFilesSound(hash, k, x, files, index, a, b, c, d);
    UnselectedKept(hash, files, index, 3, 3, run, Location(1, 0));
  }

  lemma OlderIsLast(hash: Key -> nat, k: Key, x: Key, files: Files, index: Index<Location>, a: Value, b: Value,
                    c: Value, d: Value, run: Run, files3: Files, index3: Index<Location>)
    requires ThreeFiles(hash, k, x, files, index, a, b, c, d)
    requires IsRun(hash, files, index, 3, {3}, 3, run, files3, index3)
    ensures OlderLast(hash, k, a, run) && Moves(files, 3, 3, run)
    ensures forall f: nat :: f in run.range <==> f == 1 || f == 3
  {
    ThreeFilesSound(hash, k, x, files, index, a, b, c, d);
    SecondIsLeft(hash, k, x, files, index, a, b, c, d, run);
    RunMoves(hash, files, index, 3, {3}, 3, run, files3, index3);
    FirstPutKept(hash, k, x, files, index, a, b, c, d, run);
    OlderIsKept(hash, k, x, files, index, a, b, c, d, run);
  }

  /** The rewritten bucket answers with it. */
  lemma OlderAnswers(hash: Key -> nat, k: Key, a: Value, files: Files, index: Index<Location>, run: Run,
                     index3: Index<Location>)
    requires OlderLast(hash, k, a, run) && Moves(files, 3, 3, run) && After(Bucket(index, hash(k)), 3) == []
    requires Holds(run.out, 3, run.n, run.timestamp, run.moved, run.orders)
    requires Updated(hash, index, run.orders, run.moved, 3, Hashes(hash, run.orders), index3)
    ensures Get(hash, Without(files + run.out, run.range), index3, k) == Found(a)
  {
    var j := EndsWithNew(hash, index, run.orders, run.moved, 3, index3, hash(k));
    NewIsThere(files, 3, 3, run, j);
  }

  lemma EndsWithNew(hash: Key -> nat, index: Index<Location>, orders: seq<Order>, moved: seq<Location>, end: nat,
                    index3: Index<Location>, h: nat) returns (j: nat)
    requires Updated(hash, index, orders, moved, end, Hashes(hash, orders), index3)
    requires h in Hashes(hash, orders) && After(Bucket(index, h), end) == []
    ensures LastWith(hash, orders, h, j) && Bucket(index3, h) != [] && Last(Bucket(index3, h)) == moved[j]
  {
    j := LastNew(hash, orders, moved, h);
    assert Bucket(index3, h) == NewLocations(hash, orders, moved, h);
  }

  lemma {:induction false} LocationsSorted(files: Files, ids: seq<nat>, p: nat, q: nat)
    requires Sorted(files, ids) && p < q < |Locations(files, ids)|
    ensures var a, b := Locations(files, ids)[p].fileid, Locations(files, ids)[q].fileid;
            a in files && b in files && (a == b || Before(files, a, b))
    decreases |ids|
  {
    var front, id := ids[..|ids| - 1], ids[|ids| - 1];
    var ls := Locations(files, front);
    LocationsAre(files, front);
    if q < |ls| {
      LocationsSorted(files, front, p, q);
    } else if p < |ls| {
      assert ls[p] in ls;
    }
  }

  /** Wherever k is last in the replay, it is not in the second file. */
  lemma LastIsNew(files: Files, ids: seq<nat>, ls: seq<Location>, k: Key, p: nat, q: nat)
    requires Sorted(files, ids) && ls == Locations(files, ids) && p < |ls| && q < |ls|
    requires 2 in files && files[2].timestamp == 2 && ls[q].fileid in files && files[ls[q].fileid].timestamp >= 3
    requires q <= p
    ensures ls[p].fileid != 2
  {
    if q < p {
      LocationsSorted(files, ids, q, p);
    }
  }

  /** The directory after the compaction: the second file, and the new ones with a later timestamp. */
  ghost predicate SecondAndNew(run: Run, files: Files)
  {
    && 2 in files && files[2].timestamp == 2 && run.timestamp >= 3
    && (forall f :: f in files ==> f == 2 || f in run.out)
    && (forall f :: f in run.out ==> f in files && files[f] == run.out[f])
  }

  /** On reopening it comes last as well, since it has the timestamp of the third file. */
  lemma OlderReopens(hash: Key -> nat, k: Key, a: Value, run: Run, files: Files, ids: seq<nat>)
    requires OlderLast(hash, k, a, run) && Holds(run.out, 3, run.n, run.timestamp, run.moved, run.orders)
    requires SecondAndNew(run, files) && ReplayOrder(files, ids)
    ensures AllExist(files, Locations(files, ids)) && Lookup(OrdersAt(files, Locations(files, ids)), k) == Some(a)
  {
    var ls := Locations(files, ids);
    LocationsAre(files, ids);
    var orders := OrdersAt(files, ls);
    var j := LastNew(hash, run.orders, run.moved, hash(k));
    assert Exists(run.out, run.moved[j]) && EntryAt(run.out, run.moved[j]) == Put(k, a);
    assert run.moved[j] in ls;
    var q: nat :| q < |ls| && ls[q] == run.moved[j];
    assert orders[q].key == k;
    var p := LastOrder(orders, k).value;
    LastIsNew(files, ids, ls, k, p, q);
    NewIsOlder(hash, k, a, run, ls[p]);
  }

  /** What the new files hold for k is the older put. */
  lemma NewIsOlder(hash: Key -> nat, k: Key, a: Value, run: Run, l: Location)
    requires OlderLast(hash, k, a, run) && Holds(run.out, 3, run.n, run.timestamp, run.moved, run.orders)
    requires Exists(run.out, l) && EntryAt(run.out, l).key == k
    ensures EntryAt(run.out, l) == Put(k, a)
  {
    NewIsMoved(run, l);
    var i :| 0 <= i < |run.moved| && run.moved[i] == l;
    assert run.orders[i] == EntryAt(run.out, l);
  }

  lemma NewIsMoved(run: Run, l: Location)
    requires Holds(run.out, 3, run.n, run.timestamp, run.moved, run.orders) && Exists(run.out, l)
    ensures l in run.moved
  {
    LocationsAre(run.out, Range(3, run.n));
    assert Range(3, run.n)[l.fileid - 4] == l.fileid;
  }

  /**
   * One compaction can lose a newer entry. It selects the third file, which pulls in the first, whose
   * put of k is rewritten, and taken for newer than the one in the second.
   */
  lemma NewerCanBeLost(hash: Key -> nat, k: Key, x: Key, files: Files, index: Index<Location>, a: Value, b: Value,
                       c: Value, d: Value, run: Run, files3: Files, index3: Index<Location>)
    requires ThreeFiles(hash, k, x, files, index, a, b, c, d)
    requires IsRun(hash, files, index, 3, {3}, 3, run, files3, index3)
    ensures Get(hash, files, index, k) == Found(b) && Get(hash, files3, index3, k) == Found(a)
  {
    OlderIsLast(hash, k, x, files, index, a, b, c, d, run, files3, index3);
    ThreeFilesGet(hash, k, x, files, index, a, b, c, d);
    OlderAnswers(hash, k, a, files, index, run, index3);
  }

  lemma WithoutFirst(hash: Key -> nat, k: Key, x: Key, files: Files, index: Index<Location>, a: Value, b: Value,
                     c: Value, d: Value, run: Run)
    requires ThreeFiles(hash, k, x, files, index, a, b, c, d) && NewFiles(run.out, 3, run.n, run.timestamp)
    requires Greatest(files, run.range, run.timestamp) && forall f: nat :: f in run.range <==> f == 1 || f == 3
    ensures SecondAndNew(run, Without(files + run.out, run.range))
  {
    assert 3 in run.range;
  }

  /** Opening the database does not bring it back: what was rewritten has the timestamp of the third file. */
  lemma NewerStaysLost(hash: Key -> nat, k: Key, x: Key, files: Files, index: Index<Location>, a: Value, b: Value,
                       c: Value, d: Value, run: Run, files3: Files, index3: Index<Location>, ids3: seq<nat>)
    requires ThreeFiles(hash, k, x, files, index, a, b, c, d)
    requires IsRun(hash, files, index, 3, {3}, 3, run, files3, index3) && ReplayOrder(files3, ids3)
    ensures AllExist(files3, Locations(files3, ids3)) && Lookup(OrdersAt(files3, Locations(files3, ids3)), k) == Some(a)
  {
    OlderIsLast(hash, k, x, files, index, a, b, c, d, run, files3, index3);
    WithoutFirst(hash, k, x, files, index, a, b, c, d, run);
    OlderReopens(hash, k, a, run, files3, ids3);
  }

  /** That compaction, as it runs. */
  method CompactThird(hash: Key -> nat, k: Key, x: Key, a: Value, b: Value, c: Value, d: Value,
                      full: seq<Order> -> bool)
    returns (before: Answer, after: Answer)
    requires hash(k) != hash(x)
    ensures before == Found(b) && after == Found(a)
  {
    var files := map[1 := File(1, [Put(k, a), Put(x, c)]), 2 := File(2, [Put(k, b)]), 3 := File(3, [Put(x, d)])];
    var index := map[hash(k) := [Location(1, 0), Location(2, 0)], hash(x) := [Location(1, 1), Location(3, 0)]];
    ThreeFilesSound(hash, k, x, files, index, a, b, c, d);
    before := Get(hash, files, index, k);
    var files3, index3, n, run := RunCompaction(hash, files, index, 3, {3}, 3, full);
    NewerCanBeLost(hash, k, x, files, index, a, b, c, d, run, files3, index3);
    after := Get(hash, files3, index3, k);
  }
}
