/**
 * What the manager has written, after it was closed and the files are loaded again: every file loads with the rows
 * of its entries, and the index that they make lists the entries as the one before did.
 */
module Reopening {
  import opened Bytes
  import opened Words
  import Coding
  import opened Orders
  import opened Format
  import opened Storage
  import opened HSTable
  import opened HSTableManager

  // ----- A closed file loads -----

  /** Hashes have 64 bits, and there are fewer entries than that. */
  ghost predicate Countable(hash: Key -> nat, log: seq<Logged>)
  {
    |log| < TWO64 && forall i :: 0 <= i < |log| ==> hash(log[i].w.key) < TWO64
  }

  lemma {:induction false} RowsFit(hash: Key -> nat, log: seq<Logged>, id: nat)
    requires forall i :: 0 <= i < |log| ==> hash(log[i].w.key) < TWO64
    ensures |RowsIn(hash, log, id)| <= |log|
    ensures forall j :: 0 <= j < |RowsIn(hash, log, id)| ==> RowsIn(hash, log, id)[j].Fits()
    decreases |log|
  {
    if log != [] {
      RowsFit(hash, log[..|log| - 1], id);
    }
  }

  /** The offset array of a file is inside it. */
  lemma ArrayInside(crc: Crc, file: seq<byte>, rows: seq<Row>, filetype: nat)
    requires IsCrc32(crc) && filetype < 0x1_0000_0000 && |file| < TWO64 && |rows| < TWO64
    ensures FooterInside(file + Trailer(crc, rows, filetype, 0, |file|))
  {
    var f := Footer(filetype, 0, |file|, |rows|, MAGIC);
    var body := EncodeRows(rows) + EncodeFooter(f);
    Coding.Fixed32Reads(crc(body));
    FooterRoundTrip(f);
    TrailerEnds(crc, file, EncodeRows(rows), f, EncodeFooter(f), Coding.Fixed(crc(body), Coding.BYTES32),
                file + Trailer(crc, rows, filetype, 0, |file|));
  }

  /** A closed file loads with the rows of its entries if and only if an int can hold the size of their array. */
  lemma ClosedLoads(crc: Crc, filetype: nat, trailer: Trailers, hash: Key -> nat, log: seq<Logged>,
                    files: map<nat, seq<byte>>, id: nat)
    requires FileEnds(trailer, hash, log, files, id) && IsCrc32(crc) && filetype < 0x1_0000_0000
    requires forall rows: seq<Row>, position: nat ::
               trailer(rows, position) == Trailer(crc, rows, filetype, 0, position)
    requires Countable(hash, log) && |files[id]| < TWO64
    ensures FooterInside(files[id])
    ensures var rows := RowsIn(hash, log, id);
            Loaded(crc, files[id]) == if ArrayLoads(rows) then Some(rows) else None
  {
    var rows := RowsIn(hash, log, id);
    RowsFit(hash, log, id);
    var size: nat :| EndsAt(trailer, files[id], rows, size);
    OffsetArrayRoundTrip(crc, files[id][..size], rows, filetype, 0);
    ArrayInside(crc, files[id][..size], rows, filetype);
  }

  // ----- Loading all files -----

  /** What files load with. */
  type Loader = seq<byte> -> Option<seq<Row>>

  ghost predicate Loads(load: Loader, files: map<nat, seq<byte>>, id: nat)
  {
    id in files && load(files[id]).Some?
  }

  /** The rows that files load with, inserted file by file. */
  ghost function InsertFiles(load: Loader, files: map<nat, seq<byte>>, n: nat): Index<Location>
    requires forall id: nat :: 1 <= id <= n ==> Loads(load, files, id)
  {
    if n == 0 then map[]
    else
      assert Loads(load, files, n);
      InsertRows(InsertFiles(load, files, n - 1), n, load(files[n]).value)
  }

  /** A file that has a footer, and loads as it should. */
  ghost predicate Loadable(crc: Crc, load: Loader, files: map<nat, seq<byte>>, id: nat)
  {
    id in files && FooterInside(files[id]) && load(files[id]) == Loaded(crc, files[id])
  }

  /** One file. */
  method LoadNext(crc: Crc, files: map<nat, seq<byte>>, id: nat, index0: Index<Location>, ghost load: Loader)
    returns (ok: bool, index: Index<Location>)
    requires Loadable(crc, load, files, id)
    ensures ok <==> Loads(load, files, id)
    ensures ok ==> index == InsertRows(index0, id, load(files[id]).value)
  {
    ok, index := HSTable.LoadFile(crc, files[id], id, index0);
  }

  /** The loop of LoadDatabase, over files with ids and timestamps in the same order; one that fails ends it here. */
  method LoadFiles(crc: Crc, files: map<nat, seq<byte>>, n: nat, ghost load: Loader)
    returns (ok: bool, index: Index<Location>)
    requires forall id: nat :: 1 <= id <= n ==> Loadable(crc, load, files, id)
    ensures ok <==> forall id: nat :: 1 <= id <= n ==> Loads(load, files, id)
    ensures ok ==> index == InsertFiles(load, files, n)
  {
    index := map[];
    var id := 1;
    while id <= n
      invariant 1 <= id <= n + 1 && forall i: nat :: 1 <= i <= id - 1 ==> Loads(load, files, i)
      invariant index == InsertFiles(load, files, id - 1)
    {
      ok, index := LoadNext(crc, files, id, index, load);
      if !ok {
        return;
      }
      id := id + 1;
    }
    ok := true;
  }

  // ----- The index that the rows make -----

  /** The rows of the first n files, inserted file by file. */
  ghost function RowsIndex(hash: Key -> nat, log: seq<Logged>, n: nat): Index<Location>
  {
    if n == 0 then map[] else InsertRows(RowsIndex(hash, log, n - 1), n, RowsIn(hash, log, n))
  }

  lemma OtherRows(hash: Key -> nat, log: seq<Logged>, l: Logged, id: nat)
    requires l.at.fileid != id
    ensures RowsIn(hash, log + [l], id) == RowsIn(hash, log, id)
  {
    RowsNext(hash, log, l, id);
  }

  lemma SameIndex(hash: Key -> nat, log: seq<Logged>, log': seq<Logged>, n: nat)
    requires 0 < n && RowsIndex(hash, log, n - 1) == RowsIndex(hash, log', n - 1)
    requires RowsIn(hash, log, n) == RowsIn(hash, log', n)
    ensures RowsIndex(hash, log, n) == RowsIndex(hash, log', n)
  {}

  /** An entry of a later file changes nothing for earlier ones. */
  lemma {:induction false} LaterIgnored(hash: Key -> nat, log: seq<Logged>, l: Logged, n: nat)
    requires n < l.at.fileid
    ensures RowsIndex(hash, log + [l], n) == RowsIndex(hash, log, n)
    decreases n
  {
    if n > 0 {
      LaterIgnored(hash, log, l, n - 1);
      OtherRows(hash, log, l, n);
      SameIndex(hash, log + [l], log, n);
    }
  }

  lemma InsertLast(index: Index<Location>, id: nat, rows: seq<Row>, row: Row)
    ensures InsertRows(index, id, rows + [row])
         == Insert(InsertRows(index, id, rows), row.hash, Location(id, row.offset))
  {
    assert (rows + [row])[..|rows|] == rows;
  }

  /** One entry more, in the last file. */
  lemma RowsIndexNext(hash: Key -> nat, log: seq<Logged>, l: Logged, n: nat)
    requires 0 < n == l.at.fileid && l.at.offset < 0x1_0000_0000
    ensures RowsIndex(hash, log + [l], n) == Insert(RowsIndex(hash, log, n), hash(l.w.key), Packed(l.at))
  {
    LaterIgnored(hash, log, l, n - 1);
    RowsNext(hash, log, l, n);
    InsertLast(RowsIndex(hash, log, n - 1), n, RowsIn(hash, log, n), RowOf(hash, l));
    PackedIs(l.at);
  }

  lemma FollowsNext(hash: Key -> nat, log: seq<Logged>, l: Logged, index: Index<Location>)
    requires Follows(hash, log, index)
    ensures Follows(hash, log + [l], Insert(index, hash(l.w.key), Packed(l.at)))
  {
    forall h
      ensures Bucket(Insert(index, hash(l.w.key), Packed(l.at)), h) == BucketOf(hash, log + [l], h)
    {
      BucketNext(hash, log, l, h);
    }
  }

  lemma NothingFollows(hash: Key -> nat)
    ensures Follows(hash, [], map[])
  {}

  lemma PlacedBefore(log: seq<Logged>, l: Logged, n: nat, limit: nat)
    requires Placed(log + [l], n, limit)
    ensures Placed(log, n, limit)
  {
    forall i: nat
      ensures PlacedAt(log, n, limit, i)
    {
      assert PlacedAt(log + [l], n, limit, i);
    }
  }

  /** Entries that end before the last file are all in the files before it. */
  lemma {:induction false} NoneInLast(log: seq<Logged>, n: nat, limit: nat, m: nat)
    requires Placed(log, n, limit) && (log == [] || log[|log| - 1].at.fileid <= m)
    ensures Placed(log, m, limit)
    decreases |log|
  {
    if log != [] {
      var init, l := log[..|log| - 1], log[|log| - 1];
      assert log == init + [l];
      PlacedBefore(init, l, n, limit);
      assert PlacedAt(log, n, limit, |log| - 1);
      NoneInLast(init, n, limit, m);
      forall i: nat
        ensures PlacedAt(log, m, limit, i)
      {
        assert PlacedAt(log, n, limit, i) && PlacedAt(init, m, limit, i);
      }
    }
  }

  /** The rows of the first n files make the index that lists the entries. */
  ghost predicate RowsMake(hash: Key -> nat, log: seq<Logged>, n: nat)
  {
    Follows(hash, log, RowsIndex(hash, log, n))
  }

  lemma NoFiles(hash: Key -> nat, log: seq<Logged>, limit: nat)
    requires Placed(log, 0, limit)
    ensures RowsMake(hash, log, 0)
  {
    assert PlacedAt(log, 0, limit, 0);
    NothingFollows(hash);
  }

  /** A last file without entries. */
  lemma EmptyLast(hash: Key -> nat, log: seq<Logged>, n: nat, limit: nat)
    requires 0 < n && Placed(log, n - 1, limit) && RowsMake(hash, log, n - 1)
    ensures RowsMake(hash, log, n)
  {
    NoneInNext(hash, log, n - 1, limit);
    assert RowsIndex(hash, log, n) == RowsIndex(hash, log, n - 1);
  }

  /** A last file whose last entry is the last of all. */
  lemma EntryInLast(hash: Key -> nat, init: seq<Logged>, l: Logged, log: seq<Logged>, n: nat)
    requires 0 < n == l.at.fileid && l.at.offset < 0x1_0000_0000 && log == init + [l] && RowsMake(hash, init, n)
    ensures RowsMake(hash, log, n)
  {
    RowsIndexNext(hash, init, l, n);
    FollowsNext(hash, init, l, RowsIndex(hash, init, n));
  }

  lemma LastPlaced(init: seq<Logged>, l: Logged, log: seq<Logged>, n: nat, limit: nat)
    requires log == init + [l] && Placed(log, n, limit)
    ensures Placed(init, n, limit) && 1 <= l.at.fileid <= n && l.at.offset <= limit
  {
    PlacedBefore(init, l, n, limit);
    assert PlacedAt(log, n, limit, |init|);
  }

  /** The rows of all files make the index that lists the entries. */
  lemma {:induction false} RowsFollow(hash: Key -> nat, log: seq<Logged>, n: nat, limit: nat)
    requires Placed(log, n, limit) && limit < 0x1_0000_0000
    ensures RowsMake(hash, log, n)
    decreases n, |log|
  {
    if n == 0 {
      NoFiles(hash, log, limit);
    } else if log == [] || log[|log| - 1].at.fileid < n {
      NoneInLast(log, n, limit, n - 1);
      RowsFollow(hash, log, n - 1, limit);
      EmptyLast(hash, log, n, limit);
    } else {
      var init, l := log[..|log| - 1], log[|log| - 1];
      LastPlaced(init, l, log, n, limit);
      RowsFollow(hash, init, n, limit);
      EntryInLast(hash, init, l, log, n);
    }
  }

  // ----- Whole runs -----

  /** The loader finds the rows of every file. */
  ghost predicate LoadsRows(load: Loader, hash: Key -> nat, log: seq<Logged>, files: map<nat, seq<byte>>, id: nat)
  {
    id in files && load(files[id]) == if ArrayLoads(RowsIn(hash, log, id)) then Some(RowsIn(hash, log, id)) else None
  }

  lemma {:induction false} FilesMakeIndex(load: Loader, hash: Key -> nat, log: seq<Logged>, files: map<nat, seq<byte>>,
                                          n: nat)
    requires forall id: nat :: 1 <= id <= n ==> LoadsRows(load, hash, log, files, id) && Loads(load, files, id)
    ensures InsertFiles(load, files, n) == RowsIndex(hash, log, n)
    decreases n
  {
    if n > 0 {
      FilesMakeIndex(load, hash, log, files, n - 1);
      assert LoadsRows(load, hash, log, files, n) && Loads(load, files, n);
    }
  }

  /** What has been closed, in the terms of loading. */
  lemma ClosedLoadable(crc: Crc, filetype: nat, trailer: Trailers, load: Loader, hash: Key -> nat, log: seq<Logged>,
                       files: map<nat, seq<byte>>, id: nat)
    requires FileEnds(trailer, hash, log, files, id) && IsCrc32(crc) && filetype < 0x1_0000_0000
    requires forall rows: seq<Row>, position: nat ::
               trailer(rows, position) == Trailer(crc, rows, filetype, 0, position)
    requires Countable(hash, log) && |files[id]| < TWO64 && load(files[id]) == Loaded(crc, files[id])
    ensures Loadable(crc, load, files, id) && LoadsRows(load, hash, log, files, id)
  {
    ClosedLoads(crc, filetype, trailer, hash, log, files, id);
  }

  ghost predicate ArrayOfFileLoads(hash: Key -> nat, log: seq<Logged>, id: nat)
  {
    ArrayLoads(RowsIn(hash, log, id))
  }

  lemma AllLoadWhen(load: Loader, hash: Key -> nat, log: seq<Logged>, files: map<nat, seq<byte>>, n: nat)
    requires forall id: nat :: 1 <= id <= n ==> LoadsRows(load, hash, log, files, id)
    ensures (forall id: nat :: 1 <= id <= n ==> Loads(load, files, id))
       <==> (forall id: nat :: 1 <= id <= n ==> ArrayOfFileLoads(hash, log, id))
  {
    forall id: nat | 1 <= id <= n
      ensures Loads(load, files, id) <==> ArrayOfFileLoads(hash, log, id)
    {
      assert LoadsRows(load, hash, log, files, id);
    }
  }

  /** Files whose sizes 64 bits can hold. */
  ghost predicate Sized(files: map<nat, seq<byte>>)
  {
    forall id: nat :: id in files ==> |files[id]| < TWO64
  }

  /**
   * The files of a closed manager, loaded in order: all of them load if and only if an int can hold the size of every
   * offset array, and then the index lists the entries of the log as the one before the closing did.
   */
  method Reopen(m: Manager) returns (ok: bool, index: Index<Location>)
    requires m.Arrays() && m.Valid() && m.Filed() && !m.hasFile
    requires IsCrc32(m.crc) && m.filetype < 0x1_0000_0000 && m.sizeBlock < 0x1_0000_0000
    requires Countable(m.hash, m.log) && Sized(m.files)
    ensures ok <==> forall id: nat :: 1 <= id <= m.sequenceFileid ==> ArrayOfFileLoads(m.hash, m.log, id)
    ensures ok ==> Follows(m.hash, m.log, index)
  {
    ghost var n, load := m.sequenceFileid, (file: seq<byte>) => Loaded(m.crc, file);
    forall id: nat | 1 <= id <= n
      ensures Loadable(m.crc, load, m.files, id) && LoadsRows(load, m.hash, m.log, m.files, id)
    {
      assert FileEnds(m.trailer, m.hash, m.log, m.files, id);
      ClosedLoadable(m.crc, m.filetype, m.trailer, load, m.hash, m.log, m.files, id);
    }
    AllLoadWhen(load, m.hash, m.log, m.files, n);
    ok, index := LoadFiles(m.crc, m.files, m.sequenceFileid, load);
    if ok {
      FilesMakeIndex(load, m.hash, m.log, m.files, n);
      RowsFollow(m.hash, m.log, n, m.Limit());
    }
  }

  /**
   * For every sequence of batches: they are written, the manager is closed, and its files are loaded again. The index
   * then holds all the writes, as the one that was kept meanwhile does.
   */
  method WriteAndReopen(m: Manager, batches: seq<seq<Write>>)
    returns (kept: Index<Location>, ok: bool, reopened: Index<Location>)
    requires m.Arrays() && m.Valid() && m.Filed() && m.Flushed() && m.log == []
    requires IsCrc32(m.crc) && m.filetype < 0x1_0000_0000 && m.sizeBlock < 0x1_0000_0000
    requires |Flatten(batches)| < TWO64 && forall w :: w in Flatten(batches) ==> m.hash(w.key) < TWO64
    modifies m
    ensures OnDisk(m.files, m.log) && Holds(m.encode, m.hash, m.log, kept, Flatten(batches))
    ensures Sized(m.files) ==>
              (ok <==> forall id: nat :: 1 <= id <= m.sequenceFileid ==> ArrayOfFileLoads(m.hash, m.log, id))
    ensures Sized(m.files) && ok ==> Holds(m.encode, m.hash, m.log, reopened, Flatten(batches))
  {
    kept := WriteBatches(m, batches);
    m.Close();
    m.FlushedIsOnDisk();
    ok, reopened := false, map[];
    WritesCountable(m.hash, m.log, Flatten(batches));
    if forall id | id in m.files :: |m.files[id]| < TWO64 {
      ok, reopened := Reopen(m);
    }
  }

  lemma WritesCountable(hash: Key -> nat, log: seq<Logged>, ws: seq<Write>)
    requires Writes(log) == ws && |ws| < TWO64 && forall w :: w in ws ==> hash(w.key) < TWO64
    ensures Countable(hash, log)
  {
    forall i | 0 <= i < |log|
      ensures hash(log[i].w.key) < TWO64
    {
      assert Writes(log)[i] in ws;
    }
  }
}
