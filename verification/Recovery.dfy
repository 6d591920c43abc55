/**
 * Lookups after the recovery of a file that was cut. The header of a delete never gets the hash of its
 * key, so a recovered index does not have deletes in the buckets of their keys.
 */
module Recovery {
  import opened Bytes
  import opened Orders
  import opened Format
  import opened Storage
  import opened HSTable
  import opened HSTableManager

  // ----- The index -----

  /** The locations of the first n writes that are puts with a hash. */
  ghost function PutsWith(hash: Key -> nat, fileid: nat, ws: seq<Write>, at: seq<nat>, n: nat, h: nat): seq<Location>
    requires n <= |ws| < |at|
  {
    if n == 0 then []
    else
      PutsWith(hash, fileid, ws, at, n - 1, h)
      + if !ws[n - 1].delete && hash(ws[n - 1].key) == h then [Location(fileid, at[n - 1])] else []
  }

  /** The hash that recovery finds in the header of a write. */
  function HashFound(hash: Key -> nat, w: Write): nat
  {
    if w.delete then 0 else hash(w.key)
  }

  ghost predicate RowsFound(hash: Key -> nat, ws: seq<Write>, at: seq<nat>, rows: seq<Row>)
  {
    |rows| <= |ws| < |at| && forall i :: 0 <= i < |rows| ==> rows[i] == Row(HashFound(hash, ws[i]), at[i])
  }

  lemma {:induction false} RowsBucket(hash: Key -> nat, ws: seq<Write>, at: seq<nat>, rows: seq<Row>, fileid: nat,
                                      index0: Index<Location>, h: nat)
    requires RowsFound(hash, ws, at, rows) && h != 0
    ensures Bucket(InsertRows(index0, fileid, rows), h) == Bucket(index0, h) + PutsWith(hash, fileid, ws, at, |rows|, h)
    decreases |rows|
  {
    if rows == [] {
      assert Bucket(index0, h) + [] == Bucket(index0, h);
    } else {
      RowsBucket(hash, ws, at, rows[..|rows| - 1], fileid, index0, h);
    }
  }

  /** A recovered bucket lists the puts with its hash, and no deletes. */
  lemma RecoveredBucket(compression: bool, crc8: seq<byte> -> byte, hash: Key -> nat, ws: seq<Write>, at: seq<nat>,
                        n: nat, fileid: nat, index0: Index<Location>, h: nat)
    requires n <= |ws| < |at| && h != 0
    ensures Bucket(InsertRows(index0, fileid, RowsOf(EntriesOf(compression, crc8, hash, ws), at, n)), h)
         == Bucket(index0, h) + PutsWith(hash, fileid, ws, at, n, h)
  {
    RowsBucket(hash, ws, at, RowsOf(EntriesOf(compression, crc8, hash, ws), at, n), fileid, index0, h);
  }

  /** The last of the first n writes that is a put of a key. */
  function LastPut(ws: seq<Write>, n: nat, key: Key): (r: Option<nat>)
    requires n <= |ws|
    ensures r.Some? ==> r.value < n && !ws[r.value].delete && ws[r.value].key == key
    ensures forall i :: 0 <= i < n && !ws[i].delete && ws[i].key == key ==> r.Some? && i <= r.value
  {
    if n == 0 then None
    else if !ws[n - 1].delete && ws[n - 1].key == key then Some(n - 1)
    else LastPut(ws, n - 1, key)
  }

  /** The bucket of a key ends with its last put. */
  lemma {:induction false} PutsEnd(hash: Key -> nat, keys: set<Key>, fileid: nat, ws: seq<Write>, at: seq<nat>, n: nat,
                                   key: Key)
    requires n <= |ws| < |at| && (forall i :: 0 <= i < |ws| ==> ws[i].key in keys) && Distinct(hash, keys)
    requires key in keys
    ensures var puts := PutsWith(hash, fileid, ws, at, n, hash(key));
            match LastPut(ws, n, key)
            case None => puts == []
            case Some(p) => puts != [] && puts[|puts| - 1] == Location(fileid, at[p])
    decreases n
  {
    if n > 0 {
      PutsEnd(hash, keys, fileid, ws, at, n - 1, key);
    }
  }

  // ----- Lookups -----

  /** The first n writes stand whole in a file. */
  ghost predicate StandWhole(compression: bool, crc8: seq<byte> -> byte, hash: Key -> nat, ws: seq<Write>, at: seq<nat>,
                             n: nat, file: seq<byte>)
  {
    && n <= |ws| < |at|
    && forall i: nat :: StandsWhole(compression, crc8, hash, ws, at, n, file, i)
  }

  ghost predicate StandsWhole(compression: bool, crc8: seq<byte> -> byte, hash: Key -> nat, ws: seq<Write>,
                              at: seq<nat>, n: nat, file: seq<byte>, i: nat)
  {
    i < n && n <= |ws| < |at| ==>
      && at[0] <= at[i] && SelfContained(compression, hash, ws[i]) && ws[i].key != []
      && var t := EntryBytes(compression, crc8, hash, ws[i]);
      at[i] + |t| <= |file| && file[at[i]..at[i] + |t|] == t
  }

  /** What a location of a file gives for a key, with a size recorded for the file. */
  ghost function EntryIn(compression: bool, crc8: seq<byte> -> byte, data: seq<byte>, size: nat,
                         key: Key): Location -> Option<Write>
    requires size <= |data|
  {
    (l: Location) =>
      match GetEntry(DecoderOf(compression, crc8, false, data, size), data, l.offset, size)
      case None => None
      case Some(w) => if w.key == key then Some(w) else None
  }

  ghost function LookUpIn(compression: bool, crc8: seq<byte> -> byte, hash: Key -> nat, data: seq<byte>, size: nat,
                          index: Index<Location>, key: Key): Walked<Write>
    requires size <= |data|
  {
    WalkAll(EntryIn(compression, crc8, data, size, key), Bucket(index, hash(key)))
  }

  lemma WholeReads(compression: bool, crc8: seq<byte> -> byte, hash: Key -> nat, ws: seq<Write>, at: seq<nat>, n: nat,
                   file: seq<byte>, slack: seq<byte>, size: nat, fileid: nat, p: nat)
    requires StandWhole(compression, crc8, hash, ws, at, n, file) && p < n
    requires |file| <= size < at[0] + 0x8000_0000 && size + 16 <= |file + slack|
    ensures EntryIn(compression, crc8, file + slack, size, ws[p].key)(Location(fileid, at[p])) == Some(ws[p])
  {
    assert StandsWhole(compression, crc8, hash, ws, at, n, file, p);
    var t := EntryBytes(compression, crc8, hash, ws[p]);
    assert (file + slack)[at[p]..at[p] + |t|] == file[at[p]..at[p] + |t|];
    EntryRoundTrip(compression, crc8, hash, ws[p], t, file + slack, at[p], size);
  }

  /** After recovery a lookup gives the last whole put of the key, whether or not a delete came after it. */
  lemma RecoveredLookup(compression: bool, crc8: seq<byte> -> byte, hash: Key -> nat, keys: set<Key>, ws: seq<Write>,
                        at: seq<nat>, n: nat, file: seq<byte>, slack: seq<byte>, size: nat, fileid: nat,
                        index0: Index<Location>, index: Index<Location>, key: Key)
    requires StandWhole(compression, crc8, hash, ws, at, n, file) && Bucket(index0, hash(key)) == [] && hash(key) != 0
    requires index == InsertRows(index0, fileid, RowsOf(EntriesOf(compression, crc8, hash, ws), at, n))
    requires |file| <= size < at[0] + 0x8000_0000 && size + 16 <= |file + slack|
    requires (forall i :: 0 <= i < |ws| ==> ws[i].key in keys) && Distinct(hash, keys) && key in keys
    ensures LookUpIn(compression, crc8, hash, file + slack, size, index, key)
         == match LastPut(ws, n, key)
            case None => Missed
            case Some(p) => Hit(ws[p])
  {
    var puts := PutsWith(hash, fileid, ws, at, n, hash(key));
    RecoveredBucket(compression, crc8, hash, ws, at, n, fileid, index0, hash(key));
    assert Bucket(index, hash(key)) == puts;
    PutsEnd(hash, keys, fileid, ws, at, n, key);
    var last := LastPut(ws, n, key);
    if last.Some? {
      WholeReads(compression, crc8, hash, ws, at, n, file, slack, size, fileid, last.value);
      WalkLast(EntryIn(compression, crc8, file + slack, size, key), puts, ws[last.value]);
    }
  }

  /** What a lookup says of the value of a key. */
  function ValueOf(r: Walked<Write>): Option<Value>
  {
    if r.Hit? then Says(ToOrder(r.answer)) else None
  }

  /** What the last put says. */
  function PutSays(ws: seq<Write>, n: nat, key: Key): Option<Value>
    requires n <= |ws|
  {
    match LastPut(ws, n, key)
    case None => None
    case Some(p) => Says(ToOrder(ws[p]))
  }

  /** The last order for a key is a put, or none is. */
  ghost predicate NoDeleteAfter(orders: seq<Order>, key: Key)
  {
    match LastOrder(orders, key)
    case None => true
    case Some(p) => orders[p].Put? || forall i :: 0 <= i < |orders| && orders[i].key == key ==> orders[i].Delete?
  }

  lemma PutSaysWhen(ws: seq<Write>, n: nat, key: Key)
    requires n <= |ws|
    ensures PutSays(ws, n, key) == Lookup(OrdersFor(ws[..n]), key) <==> NoDeleteAfter(OrdersFor(ws[..n]), key)
  {
    var orders := OrdersFor(ws[..n]);
    var put, last := LastPut(ws, n, key), LastOrder(orders, key);
    assert forall i :: 0 <= i < n ==> orders[i] == ToOrder(ws[i]);
    if put.Some? {
      assert orders[put.value].key == key && orders[put.value].Put?;
    }
  }

  /**
   * After recovery a lookup agrees with the whole writes if and only if the last of them for the key is a
   * put, or none is: a deleted key comes back with its last value.
   */
  lemma RecoveryAgrees(compression: bool, crc8: seq<byte> -> byte, hash: Key -> nat, keys: set<Key>, ws: seq<Write>,
                       at: seq<nat>, n: nat, file: seq<byte>, slack: seq<byte>, size: nat, fileid: nat,
                       index0: Index<Location>, index: Index<Location>, key: Key)
    requires StandWhole(compression, crc8, hash, ws, at, n, file) && Bucket(index0, hash(key)) == [] && hash(key) != 0
    requires index == InsertRows(index0, fileid, RowsOf(EntriesOf(compression, crc8, hash, ws), at, n))
    requires |file| <= size < at[0] + 0x8000_0000 && size + 16 <= |file + slack|
    requires (forall i :: 0 <= i < |ws| ==> ws[i].key in keys) && Distinct(hash, keys) && key in keys
    ensures ValueOf(LookUpIn(compression, crc8, hash, file + slack, size, index, key))
         == Lookup(OrdersFor(ws[..n]), key)
       <==> NoDeleteAfter(OrdersFor(ws[..n]), key)
  {
    RecoveredLookup(compression, crc8, hash, keys, ws, at, n, file, slack, size, fileid, index0, index, key);
    assert ValueOf(LookUpIn(compression, crc8, hash, file + slack, size, index, key)) == PutSays(ws, n, key);
    PutSaysWhen(ws, n, key);
  }

  // ----- After RecoverCut -----

  /** An entry that ends before the cut is found in a file that starts with what is before the cut. */
  lemma EntryInFile(entries: seq<Entry>, at: seq<nat>, data: seq<byte>, cut: nat, n: nat, file: seq<byte>, i: nat)
    requires Agrees(data, FILE_HEADER_SIZE, cut, Concat(EntryPieces(entries)))
    requires at == StartsOf(entries, FILE_HEADER_SIZE)
    requires i < n <= |entries| && at[n] <= cut <= |data| && data[..at[n]] <= file
    ensures var t := entries[i].bytes;
            at[0] <= at[i] && at[i] + |t| <= |file| && file[at[i]..at[i] + |t|] == t
  {
    var t := entries[i].bytes;
    AgreesPiece(data, FILE_HEADER_SIZE, cut, EntryPieces(entries), i);
    StartsGrow(entries, at, 0, i);
    StartsGrow(entries, at, i + 1, n);
    AgreesWhole(data, at[i], cut, t);
    SliceStays(data, file, at[i], at[i] + |t|, at[n]);
  }

  ghost predicate AllStand(entries: seq<Entry>, at: seq<nat>, n: nat, file: seq<byte>)
  {
    n <= |entries| < |at| && forall i: nat :: StandsAt(entries, at, n, file, i)
  }

  ghost predicate StandsAt(entries: seq<Entry>, at: seq<nat>, n: nat, file: seq<byte>, i: nat)
  {
    i < n && n <= |entries| < |at| ==>
      && at[0] <= at[i] && at[i] + |entries[i].bytes| <= |file|
      && file[at[i]..at[i] + |entries[i].bytes|] == entries[i].bytes
  }

  lemma AllInFile(entries: seq<Entry>, at: seq<nat>, data: seq<byte>, cut: nat, n: nat, file: seq<byte>)
    requires Agrees(data, FILE_HEADER_SIZE, cut, Concat(EntryPieces(entries)))
    requires at == StartsOf(entries, FILE_HEADER_SIZE)
    requires n <= |entries| && at[n] <= cut <= |data| && data[..at[n]] <= file
    ensures AllStand(entries, at, n, file)
  {
    forall i: nat
      ensures StandsAt(entries, at, n, file, i)
    {
      if i < n {
        EntryInFile(entries, at, data, cut, n, file, i);
      }
    }
  }

  lemma AllStandWhole(compression: bool, crc8: seq<byte> -> byte, hash: Key -> nat, ws: seq<Write>, at: seq<nat>,
                      n: nat, file: seq<byte>)
    requires AllStand(EntriesOf(compression, crc8, hash, ws), at, n, file)
    requires forall i :: 0 <= i < |ws| ==> SelfContained(compression, hash, ws[i]) && ws[i].key != []
    ensures StandWhole(compression, crc8, hash, ws, at, n, file)
  {
    forall i: nat
      ensures StandsWhole(compression, crc8, hash, ws, at, n, file, i)
    {
      assert StandsAt(EntriesOf(compression, crc8, hash, ws), at, n, file, i);
    }
  }

  /** The entries of a cut file, by their pieces. */
  lemma CutAgrees(compression: bool, crc8: seq<byte> -> byte, hash: Key -> nat, header: seq<byte>, ws: seq<Write>,
                  data: seq<byte>, cut: nat, entries: seq<Entry>, at: seq<nat>)
    requires IsCut(compression, crc8, hash, header, ws, data, cut, entries, at)
    ensures Agrees(data, FILE_HEADER_SIZE, cut, Concat(EntryPieces(entries)))
  {
    AgreesJoin(data, 0, cut, header, Concat(EntryPieces(entries)));
  }

  /** What recovery leaves of a file, by its whole entries. */
  lemma RecoveredIs(crc: Crc, found: Scanned, data: seq<byte>, cut: nat, entries: seq<Entry>, at: seq<nat>, n: nat,
                    fileid: nat, index0: Index<Location>, r: Option<seq<byte>>, recordedSize: nat,
                    index: Index<Location>)
    requires FindsPrefix(found, entries, at, cut, n) && Scannable(cut) && cut <= |data|
    requires Recovered(crc, found, data[..cut], fileid, index0, r, recordedSize, index) && r.Some?
    ensures n <= |entries| < |at| && at[n] <= cut && data[..at[n]] <= r.value
    ensures index == InsertRows(index0, fileid, RowsOf(entries, at, n))
  {
    assert data[..cut][..at[n]] == data[..at[n]];
  }

  /** The whole entries of a cut file stand in what recovery makes of it. */
  lemma CutStands(compression: bool, crc8: seq<byte> -> byte, hash: Key -> nat, ws: seq<Write>, data: seq<byte>,
                  cut: nat, entries: seq<Entry>, at: seq<nat>, n: nat, file: seq<byte>)
    requires Agrees(data, FILE_HEADER_SIZE, cut, Concat(EntryPieces(entries)))
    requires entries == EntriesOf(compression, crc8, hash, ws) && at == StartsOf(entries, FILE_HEADER_SIZE)
    requires forall i :: 0 <= i < |ws| ==> SelfContained(compression, hash, ws[i]) && ws[i].key != []
    requires n <= |entries| && at[n] <= cut <= |data| && data[..at[n]] <= file
    ensures StandWhole(compression, crc8, hash, ws, at, n, file)
  {
    AllInFile(entries, at, data, cut, n, file);
    AllStandWhole(compression, crc8, hash, ws, at, n, file);
  }

  /**
   * Recovery, and then a lookup: for a file cut anywhere, with what recovery leaves of it, the value of a key
   * is that of the whole writes if and only if no delete of it comes after a put.
   */
  lemma RecoverThenLookUp(compression: bool, crc8: seq<byte> -> byte, crc: Crc, hash: Key -> nat, keys: set<Key>,
                          header: seq<byte>, ws: seq<Write>, data: seq<byte>, cut: nat, entries: seq<Entry>,
                          at: seq<nat>, n: nat, found: Scanned, fileid: nat, index0: Index<Location>,
                          r: Option<seq<byte>>, recordedSize: nat, index: Index<Location>, slack: seq<byte>, key: Key)
    requires IsCut(compression, crc8, hash, header, ws, data, cut, entries, at) && Scannable(cut) && cut <= |data|
    requires FindsPrefix(found, entries, at, cut, n)
    requires Recovered(crc, found, data[..cut], fileid, index0, r, recordedSize, index) && r.Some?
    requires recordedSize < FILE_HEADER_SIZE + 0x8000_0000 && recordedSize + 16 <= |r.value + slack|
    requires (forall i :: 0 <= i < |ws| ==> ws[i].key in keys) && Distinct(hash, keys) && key in keys
    requires Bucket(index0, hash(key)) == [] && hash(key) != 0
    ensures ValueOf(LookUpIn(compression, crc8, hash, r.value + slack, recordedSize, index, key))
         == Lookup(OrdersFor(ws[..n]), key)
       <==> NoDeleteAfter(OrdersFor(ws[..n]), key)
  {
    RecoveredIs(crc, found, data, cut, entries, at, n, fileid, index0, r, recordedSize, index);
    CutAgrees(compression, crc8, hash, header, ws, data, cut, entries, at);
    CutStands(compression, crc8, hash, ws, data, cut, entries, at, n, r.value);
    RecoveryAgrees(compression, crc8, hash, keys, ws, at, n, r.value, slack, recordedSize, fileid, index0, index, key);
  }

  lemma SliceStays(data: seq<byte>, file: seq<byte>, lo: nat, hi: nat, end: nat)
    requires lo <= hi <= end <= |data| && data[..end] <= file
    ensures hi <= |file| && file[lo..hi] == data[lo..hi]
  {
    assert data[..end][lo..hi] == data[lo..hi];
    assert file[..end] == data[..end];
    assert file[..end][lo..hi] == file[lo..hi];
  }
}
