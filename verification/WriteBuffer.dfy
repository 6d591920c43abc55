/**
 * The write buffer and the storage engine behind it, as a protocol of atomic steps.
 *
 * Writers append to the live buffer. A flush swaps the live and the copy buffer, writes the copy
 * buffer to the log, moves its locations into the index one by one, and clears it once no reader is
 * in it. A Get scans the live buffer, then the copy buffer it has registered with, then the index.
 * All of these interleave. No compaction runs.
 */
module WriteBuffer {
  import opened Bytes
  import opened Orders

  /** A location is a position in the log, which holds the entries in the order they were written. */
  type Location = nat

  // ----- States -----

  /** The statuses that Database::GetRaw returns; a delete found in storage keeps its own status. */
  datatype Status = OK(value: Value) | NotFound | DeleteOrder

  function Answer(s: Status): Option<Value>
  {
    match s
    case OK(value) => Some(value)
    case _ => None
  }

  /** Where a flush is. */
  datatype Phase = Idle | Swapped | Flushed | Indexed | Clearing

  /** Where a Get is; `begun` is the number of writes there had been at its first step. */
  datatype Reader =
    | LiveMissed(key: Key, begun: nat)
    | Registered(key: Key, begun: nat)
    | Picked(key: Key, begun: nat, buffer: bool)
    | Scanned(key: Key, begun: nat, found: Option<Status>)
    | CopyMissed(key: Key, begun: nat)
    | Done(key: Key, begun: nat, status: Status)

  /** The two buffers are numbered by booleans; `history` is the sequence of writes so far. */
  datatype State = State(
    buffer0: seq<Order>, buffer1: seq<Order>, size0: nat, size1: nat, live: bool, copy: bool,
    phase: Phase, log: seq<Order>, pending: Index<Location>, index: Index<Location>,
    copyLocked: bool, numReaders: nat, readers: map<nat, Reader>,
    history: seq<Order>)
  {
    function Buffer(i: bool): seq<Order> { if i then buffer1 else buffer0 }

    function Size(i: bool): nat { if i then size1 else size0 }

    function WithBuffer(i: bool, orders: seq<Order>, size: nat): State
    {
      if i then this.(buffer1 := orders, size1 := size) else this.(buffer0 := orders, size0 := size)
    }
  }

  const INIT := State([], [], 0, 0, false, true, Idle, [], map[], map[], false, 0, map[], [])

  // ----- Steps -----

  datatype Step =
    | Write(order: Order)
    | Swap
    | FlushData
    | IndexOne(hash: nat)
    | IndexDone
    | LockCopy
    | Clear
    | LiveScan(reader: nat, key: Key)
    | Register(reader: nat)
    | PickCopy(reader: nat)
    | ScanCopy(reader: nat)
    | Unregister(reader: nat)
    | ReadStorage(reader: nat)
    | Forget(reader: nat)

  function OrderSize(o: Order): nat
  {
    match o
    case Put(key, value) => |key| + |value|
    case Delete(key) => |key|
  }

  /** The rows of log[from..end], inserted one after another. */
  function Rows(hash: Key -> nat, log: seq<Order>, from: nat, end: nat): Index<Location>
    requires from <= end <= |log|
    decreases end
  {
    if from == end then map[]
    else Insert(Rows(hash, log, from, end - 1), hash(log[end - 1].key), end - 1)
  }

  /** What the last order for a key in a buffer makes the write buffer's Get return. */
  function Found(orders: seq<Order>, key: Key): Option<Status>
  {
    match LastOrder(orders, key)
    case None => None
    case Some(p) =>
      match orders[p]
      case Put(_, value) => Some(OK(value))
      case Delete(_) => Some(NotFound)
  }

  /** The last location of the bucket of a key. */
  function StorageGet(hash: Key -> nat, index: Index<Location>, log: seq<Order>, key: Key): Status
  {
    var bucket := Bucket(index, hash(key));
    if bucket == [] || bucket[|bucket| - 1] >= |log| then NotFound
    else
      var entry := log[bucket[|bucket| - 1]];
      if entry.key != key then NotFound
      else match entry
        case Put(_, value) => OK(value)
        case Delete(_) => DeleteOrder
  }

  predicate Enabled(s: State, step: Step)
  {
    match step
    case Write(_) => true
    case Swap => s.phase.Idle? && s.Size(s.live) > 0
    case FlushData => s.phase.Swapped?
    case IndexOne(h) => s.phase.Flushed? && Bucket(s.pending, h) != []
    case IndexDone => s.phase.Flushed? && forall h :: h in s.pending ==> s.pending[h] == []
    case LockCopy => s.phase.Indexed?
    case Clear => s.phase.Clearing? && s.numReaders == 0
    case LiveScan(r, _) => r !in s.readers
    case Register(r) => r in s.readers && s.readers[r].LiveMissed? && !s.copyLocked
    case PickCopy(r) => r in s.readers && s.readers[r].Registered?
    case ScanCopy(r) => r in s.readers && s.readers[r].Picked?
    case Unregister(r) => r in s.readers && s.readers[r].Scanned? && s.numReaders > 0
    case ReadStorage(r) => r in s.readers && s.readers[r].CopyMissed?
    case Forget(r) => r in s.readers && s.readers[r].Done?
  }

  function Apply(hash: Key -> nat, s: State, step: Step): State
    requires Enabled(s, step)
  {
    match step
    case Write(o) =>
      s.WithBuffer(s.live, s.Buffer(s.live) + [o], s.Size(s.live) + OrderSize(o)).(history := s.history + [o])
    case Swap =>
      if s.Size(s.copy) == 0 then s.(live := s.copy, copy := s.live, phase := Swapped) else s.(phase := Swapped)
    case FlushData =>
      var log := s.log + s.Buffer(s.copy);
      s.(log := log, pending := Rows(hash, log, |s.log|, |log|), phase := Flushed)
    case IndexOne(h) =>
      s.(index := Insert(s.index, h, s.pending[h][0]), pending := s.pending[h := s.pending[h][1..]])
    case IndexDone => s.(phase := Indexed)
    case LockCopy => s.(phase := Clearing, copyLocked := true)
    case Clear => s.WithBuffer(s.copy, [], 0).(phase := Idle, copyLocked := false)
    case LiveScan(r, key) =>
      var found := Found(s.Buffer(s.live), key);
      s.(readers := s.readers[r := if found.Some? then Done(key, |s.history|, found.value)
                              else LiveMissed(key, |s.history|)])
    case Register(r) =>
      s.(readers := s.readers[r := Registered(s.readers[r].key, s.readers[r].begun)], numReaders := s.numReaders + 1)
    case PickCopy(r) => s.(readers := s.readers[r := Picked(s.readers[r].key, s.readers[r].begun, s.copy)])
    case ScanCopy(r) =>
      var g := s.readers[r];
      s.(readers := s.readers[r := Scanned(g.key, g.begun, Found(s.Buffer(g.buffer), g.key))])
    case Unregister(r) =>
      var g := s.readers[r];
      s.(readers := s.readers[r := if g.found.Some? then Done(g.key, g.begun, g.found.value)
                              else CopyMissed(g.key, g.begun)],
         numReaders := s.numReaders - 1)
    case ReadStorage(r) =>
      var g := s.readers[r];
      s.(readers := s.readers[r := Done(g.key, g.begun, StorageGet(hash, s.index, s.log, g.key))])
    case Forget(r) => s.(readers := s.readers - {r})
  }

  // ----- The invariant -----

  /** The writes that have left both buffers. */
  function Cleared(s: State): int
  {
    |s.history| - |s.buffer0| - |s.buffer1|
  }

  /** The first write that is in the live buffer. */
  function LiveStart(s: State): int
  {
    |s.history| - |s.Buffer(s.live)|
  }

  /** The history is what has been cleared, then the copy buffer, then the live buffer. */
  ghost predicate BuffersMatch(s: State)
  {
    && s.live != s.copy
    && 0 <= Cleared(s)
    && s.history[Cleared(s)..LiveStart(s)] == s.Buffer(s.copy)
    && s.history[LiveStart(s)..] == s.Buffer(s.live)
  }

  /** The log is the part of the history that has been flushed. */
  ghost predicate LogMatches(s: State)
  {
    0 <= Cleared(s) &&
    match s.phase
    case Idle => s.Buffer(s.copy) == [] && s.Size(s.copy) == 0 && s.log == s.history[..Cleared(s)]
    case Swapped => s.log == s.history[..Cleared(s)]
    case _ => s.log == s.history[..LiveStart(s)]
  }

  /** Each bucket of the index, continued by what is pending for it, lists the log's positions for its hash. */
  ghost predicate IndexMatches(hash: Key -> nat, s: State)
  {
    forall h :: Bucket(s.index, h) + Bucket(s.pending, h) == Positions(hash, s.log, h, 0, |s.log|)
  }

  /** Nothing is pending outside the index phase, and there only locations of the copy buffer. */
  ghost predicate PendingMatches(s: State)
  {
    && (forall h :: !s.phase.Flushed? ==> Bucket(s.pending, h) == [])
    && (forall h, p :: p in Bucket(s.pending, h) ==> Cleared(s) <= p)
  }

  ghost predicate InCopy(g: Reader)
  {
    g.Registered? || g.Picked? || g.Scanned?
  }

  ghost function Inside(readers: map<nat, Reader>): set<nat>
  {
    set r | r in readers && InCopy(readers[r])
  }

  /** No write for the key among the first `begun` lies at or after position p. */
  ghost predicate AllBefore(history: seq<Order>, key: Key, begun: nat, p: int)
  {
    forall q :: 0 <= q < begun && q < |history| && history[q].key == key ==> q < p
  }

  /** A status is the logical answer at some instant since the Get began. */
  ghost predicate Linearized(history: seq<Order>, key: Key, begun: nat, status: Status)
  {
    exists m :: begun <= m <= |history| && Answer(status) == Lookup(history[..m], key)
  }

  ghost predicate ReaderMatches(s: State, g: Reader)
  {
    && g.begun <= |s.history|
    && match g
       case LiveMissed(key, begun) => AllBefore(s.history, key, begun, LiveStart(s))
       case Registered(key, begun) => AllBefore(s.history, key, begun, LiveStart(s))
       case Picked(key, begun, buffer) =>
         && AllBefore(s.history, key, begun, LiveStart(s))
         && (buffer == s.copy || AllBefore(s.history, key, begun, Cleared(s)))
       case Scanned(key, begun, found) =>
         if found.Some? then Linearized(s.history, key, begun, found.value)
         else AllBefore(s.history, key, begun, Cleared(s))
       case CopyMissed(key, begun) => AllBefore(s.history, key, begun, Cleared(s))
       case Done(key, begun, status) => Linearized(s.history, key, begun, status)
  }

  ghost predicate ReadersMatch(s: State)
  {
    && s.numReaders == |Inside(s.readers)|
    && forall r :: r in s.readers ==> ReaderMatches(s, s.readers[r])
  }

  ghost predicate KeysIn(keys: set<Key>, s: State)
  {
    && (forall p :: 0 <= p < |s.history| ==> s.history[p].key in keys)
    && (forall r :: r in s.readers ==> s.readers[r].key in keys)
  }

  ghost predicate Inv(hash: Key -> nat, keys: set<Key>, s: State)
  {
    && BuffersMatch(s) && LogMatches(s) && IndexMatches(hash, s) && PendingMatches(s) && ReadersMatch(s)
    && KeysIn(keys, s)
  }

  ghost predicate StepIn(keys: set<Key>, step: Step)
  {
    match step
    case Write(o) => o.key in keys
    case LiveScan(_, key) => key in keys
    case _ => true
  }

  // ----- Readers while others move -----

  /** What a reader relies on survives every step of the others. */
  lemma ReaderSurvives(s: State, s': State, g: Reader)
    requires ReaderMatches(s, g)
    requires s.history <= s'.history && LiveStart(s) <= LiveStart(s') && Cleared(s) <= Cleared(s')
    requires s'.copy == s.copy || LiveStart(s) == Cleared(s)
    ensures ReaderMatches(s', g)
  {
    if (g.Done? || (g.Scanned? && g.found.Some?)) {
      var status := if g.Done? then g.status else g.found.value;
      var m :| g.begun <= m <= |s.history| && Answer(status) == Lookup(s.history[..m], g.key);
      assert s'.history[..m] == s.history[..m];
    }
  }

  lemma ReadersSurvive(s: State, s': State)
    requires ReadersMatch(s) && s'.readers == s.readers && s'.numReaders == s.numReaders
    requires s.history <= s'.history && LiveStart(s) <= LiveStart(s') && Cleared(s) <= Cleared(s')
    requires s'.copy == s.copy || LiveStart(s) == Cleared(s)
    ensures ReadersMatch(s')
  {
    forall r | r in s'.readers
      ensures ReaderMatches(s', s'.readers[r])
    {
      ReaderSurvives(s, s', s.readers[r]);
    }
  }

  // ----- Steps of writers and of the flush -----

  lemma WriteKeepsBuffers(hash: Key -> nat, s: State, o: Order)
    requires BuffersMatch(s) && LogMatches(s)
    ensures BuffersMatch(Apply(hash, s, Write(o))) && LogMatches(Apply(hash, s, Write(o)))
  {
    var s' := Apply(hash, s, Write(o));
    var c, l := Cleared(s), LiveStart(s);
    assert Cleared(s') == c && LiveStart(s') == l;
    assert s'.history[..c] == s.history[..c] && s'.history[..l] == s.history[..l];
    assert s'.history[c..l] == s.history[c..l] && s'.history[l..] == s.history[l..] + [o];
  }

  lemma WriteKeepsInv(hash: Key -> nat, keys: set<Key>, s: State, o: Order)
    requires Inv(hash, keys, s) && o.key in keys
    ensures Inv(hash, keys, Apply(hash, s, Write(o)))
  {
    WriteKeepsBuffers(hash, s, o);
    ReadersSurvive(s, Apply(hash, s, Write(o)));
  }

  lemma SwapKeepsInv(hash: Key -> nat, keys: set<Key>, s: State)
    requires Inv(hash, keys, s) && Enabled(s, Swap)
    ensures Inv(hash, keys, Apply(hash, s, Swap))
  {
    var s' := Apply(hash, s, Swap);
    assert s'.live == s.copy && s'.copy == s.live;
    assert LiveStart(s') == |s.history| && Cleared(s') == Cleared(s) == LiveStart(s);
    assert s'.history[LiveStart(s')..] == [];
    ReadersSurvive(s, s');
  }

  lemma {:induction false} PositionsSplit(hash: Key -> nat, log: seq<Order>, h: nat, mid: nat, end: nat)
    requires mid <= end <= |log|
    ensures Positions(hash, log, h, 0, end) == Positions(hash, log, h, 0, mid) + Positions(hash, log, h, mid, end)
    decreases end
  {
    if mid < end {
      PositionsSplit(hash, log, h, mid, end - 1);
    }
  }

  lemma {:induction false} RowsArePositions(hash: Key -> nat, log: seq<Order>, h: nat, from: nat, end: nat)
    requires from <= end <= |log|
    ensures Bucket(Rows(hash, log, from, end), h) == Positions(hash, log, h, from, end)
    decreases end
  {
    if from < end {
      RowsArePositions(hash, log, h, from, end - 1);
      var before, g := Rows(hash, log, from, end - 1), hash(log[end - 1].key);
      assert Bucket(Insert(before, g, end - 1), h) == if g == h then Bucket(before, h) + [end - 1]
      else Bucket(before, h);
    }
  }

  /** Flushing leaves exactly the locations of the new entries pending. */
  lemma FlushPends(hash: Key -> nat, index: Index<Location>, log: seq<Order>, more: seq<Order>, h: nat)
    requires Bucket(index, h) == Positions(hash, log, h, 0, |log|)
    ensures Bucket(index, h) + Bucket(Rows(hash, log + more, |log|, |log + more|), h)
         == Positions(hash, log + more, h, 0, |log + more|)
    ensures forall p :: p in Bucket(Rows(hash, log + more, |log|, |log + more|), h) ==> |log| <= p
  {
    PositionsPrefix(hash, log, more, h, |log|);
    PositionsSplit(hash, log + more, h, |log|, |log + more|);
    RowsArePositions(hash, log + more, h, |log|, |log + more|);
    PositionsAre(hash, log + more, h, |log|, |log + more|);
  }

  lemma FlushKeepsIndex(hash: Key -> nat, s: State)
    requires IndexMatches(hash, s) && PendingMatches(s) && s.phase.Swapped? && 0 <= Cleared(s) == |s.log|
    ensures IndexMatches(hash, Apply(hash, s, FlushData)) && PendingMatches(Apply(hash, s, FlushData))
  {
    var s' := Apply(hash, s, FlushData);
    forall h
      ensures Bucket(s'.index, h) + Bucket(s'.pending, h) == Positions(hash, s'.log, h, 0, |s'.log|)
      ensures forall p :: p in Bucket(s'.pending, h) ==> Cleared(s') <= p
    {
      assert Bucket(s.index, h) + Bucket(s.pending, h) == Positions(hash, s.log, h, 0, |s.log|);
      FlushPends(hash, s.index, s.log, s.Buffer(s.copy), h);
    }
  }

  lemma FlushKeepsBuffers(hash: Key -> nat, s: State)
    requires BuffersMatch(s) && LogMatches(s) && Enabled(s, FlushData)
    ensures BuffersMatch(Apply(hash, s, FlushData)) && LogMatches(Apply(hash, s, FlushData))
  {
    assert s.history[..LiveStart(s)] == s.history[..Cleared(s)] + s.history[Cleared(s)..LiveStart(s)];
  }

  lemma FlushKeepsReaders(hash: Key -> nat, s: State)
    requires ReadersMatch(s) && Enabled(s, FlushData)
    ensures ReadersMatch(Apply(hash, s, FlushData))
  {
    ReadersSurvive(s, Apply(hash, s, FlushData));
  }

  lemma FlushKeepsInv(hash: Key -> nat, keys: set<Key>, s: State)
    requires Inv(hash, keys, s) && Enabled(s, FlushData)
    ensures Inv(hash, keys, Apply(hash, s, FlushData))
  {
    FlushKeepsBuffers(hash, s);
    FlushKeepsIndex(hash, s);
    FlushKeepsReaders(hash, s);
  }

  /** The first pending location of a bucket goes to its end. */
  lemma OneIndexed(index: Index<nat>, pending: Index<nat>, h: nat, g: nat)
    requires h in pending && pending[h] != []
    ensures var index', pending' := Insert(index, h, pending[h][0]), pending[h := pending[h][1..]];
            && Bucket(index', g) + Bucket(pending', g) == Bucket(index, g) + Bucket(pending, g)
            && forall p :: p in Bucket(pending', g) ==> p in Bucket(pending, g)
  {
    assert pending[h] == [pending[h][0]] + pending[h][1..];
    Assoc3(Bucket(index, h), [pending[h][0]], pending[h][1..]);
  }

  lemma IndexKeepsIndex(hash: Key -> nat, s: State, h: nat)
    requires IndexMatches(hash, s) && PendingMatches(s) && Enabled(s, IndexOne(h))
    ensures IndexMatches(hash, Apply(hash, s, IndexOne(h))) && PendingMatches(Apply(hash, s, IndexOne(h)))
  {
    var s' := Apply(hash, s, IndexOne(h));
    forall g
      ensures Bucket(s'.index, g) + Bucket(s'.pending, g) == Bucket(s.index, g) + Bucket(s.pending, g)
      ensures forall p :: p in Bucket(s'.pending, g) ==> p in Bucket(s.pending, g)
    {
      OneIndexed(s.index, s.pending, h, g);
    }
  }

  /** A step of the flush that moves no order keeps what the buffers, the log and the readers say. */
  lemma QuietKeeps(hash: Key -> nat, s: State, step: Step)
    requires BuffersMatch(s) && LogMatches(s) && ReadersMatch(s)
    requires Enabled(s, step) && (step.IndexOne? || step.IndexDone? || step.LockCopy?)
    ensures var s' := Apply(hash, s, step);
            BuffersMatch(s') && LogMatches(s') && ReadersMatch(s')
  {
    var s' := Apply(hash, s, step);
    assert Cleared(s') == Cleared(s) && LiveStart(s') == LiveStart(s);
    ReadersSurvive(s, s');
  }

  lemma IndexKeepsInv(hash: Key -> nat, keys: set<Key>, s: State, h: nat)
    requires Inv(hash, keys, s) && Enabled(s, IndexOne(h))
    ensures Inv(hash, keys, Apply(hash, s, IndexOne(h)))
  {
    IndexKeepsIndex(hash, s, h);
    QuietKeeps(hash, s, IndexOne(h));
  }

  lemma PhaseKeepsIndex(hash: Key -> nat, s: State, step: Step)
    requires IndexMatches(hash, s) && PendingMatches(s) && Enabled(s, step) && (step.IndexDone? || step.LockCopy?)
    ensures IndexMatches(hash, Apply(hash, s, step)) && PendingMatches(Apply(hash, s, step))
  {}

  lemma PhaseKeepsInv(hash: Key -> nat, keys: set<Key>, s: State, step: Step)
    requires Inv(hash, keys, s) && Enabled(s, step) && (step.IndexDone? || step.LockCopy?)
    ensures Inv(hash, keys, Apply(hash, s, step))
  {
    PhaseKeepsIndex(hash, s, step);
    QuietKeeps(hash, s, step);
  }

  lemma ClearKeepsInv(hash: Key -> nat, keys: set<Key>, s: State)
    requires Inv(hash, keys, s) && Enabled(s, Clear)
    ensures Inv(hash, keys, Apply(hash, s, Clear))
  {
    var s' := Apply(hash, s, Clear);
    assert Cleared(s') == LiveStart(s') == LiveStart(s);
    assert s'.history[LiveStart(s)..LiveStart(s)] == [];
    forall r | r in s'.readers
      ensures ReaderMatches(s', s'.readers[r])
    {
      assert r !in Inside(s.readers);
      ReaderSurvives(s, s', s.readers[r]);
    }
  }

  // ----- Steps of readers -----

  /** What is not about readers does not depend on them. */
  lemma OnlyReadersMove(hash: Key -> nat, keys: set<Key>, s: State, s': State)
    requires Inv(hash, keys, s) && s' == s.(readers := s'.readers, numReaders := s'.numReaders)
    requires ReadersMatch(s') && forall r :: r in s'.readers ==> s'.readers[r].key in keys
    ensures Inv(hash, keys, s')
  {}

  /** One reader moves; what the others rely on is untouched. */
  lemma OneReaderMoves(hash: Key -> nat, keys: set<Key>, s: State, s': State, r: nat, g: Reader)
    requires Inv(hash, keys, s) && g.key in keys
    requires s' == s.(readers := s.readers[r := g], numReaders := s'.numReaders)
    requires ReaderMatches(s, g)
    requires s'.numReaders == |Inside(s.readers[r := g])|
    ensures Inv(hash, keys, s')
  {
    forall q | q in s'.readers
      ensures ReaderMatches(s', s'.readers[q])
    {
      ReaderSurvives(s, s', if q == r then g else s.readers[q]);
    }
    OnlyReadersMove(hash, keys, s, s');
  }

  lemma Moves(readers: map<nat, Reader>, r: nat, g: Reader)
    ensures var was := r in readers && InCopy(readers[r]);
            |Inside(readers[r := g])| == |Inside(readers)| - (if was then 1 else 0) + (if InCopy(g) then 1 else 0)
  {
    var a, b := Inside(readers), Inside(readers[r := g]);
    var others := a - {r};
    assert b - {r} == others;
    assert a == if r in a then others + {r} else others;
    assert b == if r in b then others + {r} else others;
  }

  /** The answer of the last order for a key, at an instant with no other order for it in between. */
  lemma AnswerAt(history: seq<Order>, key: Key, begun: nat, q: nat, status: Status)
    requires begun <= |history| && q < |history| && history[q].key == key
    requires forall p :: q < p < begun ==> history[p].key != key
    requires Answer(status) == Says(history[q])
    ensures Linearized(history, key, begun, status)
  {
    var m := if q < begun then begun else q + 1;
    var h := history[..m];
    assert h[q].key == key;
    var last := LastOrder(h, key);
    assert last == Some(q);
    assert begun <= m <= |history| && Answer(status) == Lookup(history[..m], key);
  }

  lemma NoAnswerAt(history: seq<Order>, key: Key, begun: nat, status: Status)
    requires begun <= |history| && Answer(status).None?
    requires forall p :: 0 <= p < begun ==> history[p].key != key
    ensures Linearized(history, key, begun, status)
  {
    assert LastOrder(history[..begun], key) == None;
    assert begun <= begun <= |history| && Answer(status) == Lookup(history[..begun], key);
  }

  /** A buffer that is a slice of the history answers for the history, from where the slice starts. */
  lemma FoundInSlice(history: seq<Order>, buffer: seq<Order>, lo: int, key: Key, begun: nat)
    requires 0 <= lo && lo + |buffer| <= |history| && history[lo..lo + |buffer|] == buffer
    requires begun <= |history| && AllBefore(history, key, begun, lo + |buffer|)
    ensures Found(buffer, key).Some? ==> Linearized(history, key, begun, Found(buffer, key).value)
    ensures Found(buffer, key).None? ==> AllBefore(history, key, begun, lo)
  {
    var last := LastOrder(buffer, key);
    if last.Some? {
      var q := lo + last.value;
      assert history[q] == buffer[last.value];
      forall p | q < p < begun
        ensures history[p].key != key
      {
        if p < lo + |buffer| {
          assert history[p] == buffer[p - lo];
        }
      }
      AnswerAt(history, key, begun, q, Found(buffer, key).value);
    } else {
      forall q | lo <= q < begun
        ensures history[q].key != key
      {
        if q < lo + |buffer| {
          assert history[q] == buffer[q - lo];
        }
      }
    }
  }

  lemma FoundInLive(s: State, key: Key, begun: nat)
    requires BuffersMatch(s) && begun <= |s.history|
    ensures var found := Found(s.Buffer(s.live), key);
            if found.Some? then Linearized(s.history, key, begun, found.value)
            else AllBefore(s.history, key, begun, LiveStart(s))
  {
    var live, lo := s.Buffer(s.live), LiveStart(s);
    assert s.history[lo..lo + |live|] == s.history[lo..];
    FoundInSlice(s.history, live, lo, key, begun);
  }

  lemma FoundInCopy(s: State, key: Key, begun: nat)
    requires BuffersMatch(s) && begun <= |s.history| && AllBefore(s.history, key, begun, LiveStart(s))
    ensures var found := Found(s.Buffer(s.copy), key);
            if found.Some? then Linearized(s.history, key, begun, found.value)
            else AllBefore(s.history, key, begun, Cleared(s))
  {
    FoundInSlice(s.history, s.Buffer(s.copy), Cleared(s), key, begun);
  }

  lemma LiveScanKeepsInv(hash: Key -> nat, keys: set<Key>, s: State, r: nat, key: Key)
    requires Inv(hash, keys, s) && key in keys && Enabled(s, LiveScan(r, key))
    ensures Inv(hash, keys, Apply(hash, s, LiveScan(r, key)))
  {
    var s' := Apply(hash, s, LiveScan(r, key));
    FoundInLive(s, key, |s.history|);
    Moves(s.readers, r, s'.readers[r]);
    OneReaderMoves(hash, keys, s, s', r, s'.readers[r]);
  }

  lemma ScanCopyKeepsInv(hash: Key -> nat, keys: set<Key>, s: State, r: nat)
    requires Inv(hash, keys, s) && Enabled(s, ScanCopy(r))
    ensures Inv(hash, keys, Apply(hash, s, ScanCopy(r)))
  {
    var s' := Apply(hash, s, ScanCopy(r));
    var g := s.readers[r];
    if g.buffer == s.copy {
      FoundInCopy(s, g.key, g.begun);
    } else {
      FoundInLive(s, g.key, g.begun);
    }
    Moves(s.readers, r, s'.readers[r]);
    OneReaderMoves(hash, keys, s, s', r, s'.readers[r]);
  }

  /** Storage answers for every write that has left the buffers. */
  lemma StorageAnswers(hash: Key -> nat, keys: set<Key>, s: State, key: Key, begun: nat)
    requires Inv(hash, keys, s) && Distinct(hash, keys) && key in keys && begun <= |s.history|
    requires AllBefore(s.history, key, begun, Cleared(s))
    ensures Linearized(s.history, key, begun, StorageGet(hash, s.index, s.log, key))
  {
    var h := hash(key);
    var bucket, status := Bucket(s.index, h), StorageGet(hash, s.index, s.log, key);
    var all := Positions(hash, s.log, h, 0, |s.log|);
    PositionsAre(hash, s.log, h, 0, |s.log|);
    assert bucket + Bucket(s.pending, h) == all;
    assert s.log <= s.history;
    assert forall p :: 0 <= p < begun && s.history[p].key == key ==> p in bucket by {
      forall p | 0 <= p < begun && s.history[p].key == key
        ensures p in bucket
      {
        assert s.log[p] == s.history[p];
        assert p in all && p !in Bucket(s.pending, h);
      }
    }
    if bucket == [] {
      NoAnswerAt(s.history, key, begun, status);
    } else {
      var q := bucket[|bucket| - 1];
      assert q in all;
      assert s.log[q].key == s.history[q].key == key;
      forall i | 0 <= i < |bucket|
        ensures bucket[i] <= q
      {
        assert all[i] == bucket[i] && all[|bucket| - 1] == q;
      }
      assert forall p :: p in bucket ==> p <= q;
      AnswerAt(s.history, key, begun, q, status);
    }
  }

  lemma ReadStorageKeepsInv(hash: Key -> nat, keys: set<Key>, s: State, r: nat)
    requires Inv(hash, keys, s) && Distinct(hash, keys) && Enabled(s, ReadStorage(r))
    ensures Inv(hash, keys, Apply(hash, s, ReadStorage(r)))
  {
    var s' := Apply(hash, s, ReadStorage(r));
    var g := s.readers[r];
    StorageAnswers(hash, keys, s, g.key, g.begun);
    Moves(s.readers, r, s'.readers[r]);
    OneReaderMoves(hash, keys, s, s', r, s'.readers[r]);
  }

  /** A reader registers with the copy buffer, picks it, or leaves it. */
  lemma CopyReaderKeepsInv(hash: Key -> nat, keys: set<Key>, s: State, step: Step, r: nat)
    requires Inv(hash, keys, s) && Enabled(s, step)
    requires step == Register(r) || step == PickCopy(r) || step == Unregister(r)
    ensures Inv(hash, keys, Apply(hash, s, step))
  {
    var s' := Apply(hash, s, step);
    Moves(s.readers, r, s'.readers[r]);
    OneReaderMoves(hash, keys, s, s', r, s'.readers[r]);
  }

  lemma ForgetKeepsReaders(hash: Key -> nat, s: State, r: nat)
    requires ReadersMatch(s) && Enabled(s, Forget(r))
    ensures ReadersMatch(Apply(hash, s, Forget(r)))
  {
    var s' := Apply(hash, s, Forget(r));
    assert Inside(s'.readers) == Inside(s.readers);
    forall q | q in s'.readers
      ensures ReaderMatches(s', s'.readers[q])
    {
      ReaderSurvives(s, s', s.readers[q]);
    }
  }

  lemma ForgetKeepsInv(hash: Key -> nat, keys: set<Key>, s: State, r: nat)
    requires Inv(hash, keys, s) && Enabled(s, Forget(r))
    ensures Inv(hash, keys, Apply(hash, s, Forget(r)))
  {
    ForgetKeepsReaders(hash, s, r);
    OnlyReadersMove(hash, keys, s, Apply(hash, s, Forget(r)));
  }

  // ----- Whole runs -----

  lemma StepKeepsInv(hash: Key -> nat, keys: set<Key>, s: State, step: Step)
    requires Inv(hash, keys, s) && Distinct(hash, keys) && StepIn(keys, step) && Enabled(s, step)
    ensures Inv(hash, keys, Apply(hash, s, step))
  {
    match step
    case Write(o) => WriteKeepsInv(hash, keys, s, o);
    case Swap => SwapKeepsInv(hash, keys, s);
    case FlushData => FlushKeepsInv(hash, keys, s);
    case IndexOne(h) => IndexKeepsInv(hash, keys, s, h);
    case IndexDone => PhaseKeepsInv(hash, keys, s, step);
    case LockCopy => PhaseKeepsInv(hash, keys, s, step);
    case Clear => ClearKeepsInv(hash, keys, s);
    case LiveScan(r, key) => LiveScanKeepsInv(hash, keys, s, r, key);
    case Register(r) => CopyReaderKeepsInv(hash, keys, s, step, r);
    case PickCopy(r) => CopyReaderKeepsInv(hash, keys, s, step, r);
    case ScanCopy(r) => ScanCopyKeepsInv(hash, keys, s, r);
    case Unregister(r) => CopyReaderKeepsInv(hash, keys, s, step, r);
    case ReadStorage(r) => ReadStorageKeepsInv(hash, keys, s, r);
    case Forget(r) => ForgetKeepsInv(hash, keys, s, r);
  }

  /** A run goes through states[0], states[1], ... by the steps in between. */
  ghost predicate IsRun(hash: Key -> nat, keys: set<Key>, states: seq<State>, steps: seq<Step>)
  {
    && |states| == |steps| + 1
    && states[0] == INIT
    && forall i :: 0 <= i < |steps| ==> Moved(hash, keys, states[i], steps[i], states[i + 1])
  }

  ghost predicate Moved(hash: Key -> nat, keys: set<Key>, s: State, step: Step, s': State)
  {
    StepIn(keys, step) && Enabled(s, step) && s' == Apply(hash, s, step)
  }

  lemma InitInv(hash: Key -> nat, keys: set<Key>)
    ensures Inv(hash, keys, INIT)
  {
    assert Inside(INIT.readers) == {};
  }

  /** Safety: the invariant holds in every state of every run. */
  lemma {:induction false} RunKeepsInv(hash: Key -> nat, keys: set<Key>, states: seq<State>, steps: seq<Step>, i: nat)
    requires Distinct(hash, keys) && IsRun(hash, keys, states, steps) && i < |states|
    ensures Inv(hash, keys, states[i])
  {
    if i == 0 {
      InitInv(hash, keys);
    } else {
      RunKeepsInv(hash, keys, states, steps, i - 1);
      assert Moved(hash, keys, states[i - 1], steps[i - 1], states[i]);
      StepKeepsInv(hash, keys, states[i - 1], steps[i - 1]);
    }
  }

  /** One step writes at most one order, and never forgets one. */
  lemma StepHistory(hash: Key -> nat, keys: set<Key>, s: State, step: Step, s': State)
    requires Moved(hash, keys, s, step, s')
    ensures s.history <= s'.history && |s'.history| <= |s.history| + 1
  {}

  lemma StepGrows(hash: Key -> nat, keys: set<Key>, states: seq<State>, steps: seq<Step>, i: nat)
    requires IsRun(hash, keys, states, steps) && i < |steps|
    ensures states[i].history <= states[i + 1].history && |states[i + 1].history| <= |states[i].history| + 1
  {
    StepHistory(hash, keys, states[i], steps[i], states[i + 1]);
  }

  /** Every number of writes between those of two states is that of a state between them. */
  lemma {:induction false} HistoryReaches(hash: Key -> nat, keys: set<Key>, states: seq<State>, steps: seq<Step>,
                                          i: nat, j: nat, m: nat) returns (t: nat)
    requires IsRun(hash, keys, states, steps) && i <= j < |states|
    requires |states[i].history| <= m <= |states[j].history|
    ensures i <= t <= j && states[t].history == states[j].history[..m]
    decreases j
  {
    if m == |states[j].history| {
      t := j;
    } else {
      assert i < j;
      StepGrows(hash, keys, states, steps, j - 1);
      t := HistoryReaches(hash, keys, states, steps, i, j - 1, m);
      assert states[j - 1].history[..m] == states[j].history[..m];
    }
  }

  /** A Get of a key that reader r begins with its live scan in state s, and that returns in state e. */
  ghost predicate IsGet(states: seq<State>, steps: seq<Step>, r: nat, key: Key, s: nat, e: nat)
    requires |states| == |steps| + 1
  {
    && s < e < |states|
    && steps[s] == LiveScan(r, key)
    && (forall i :: s < i < e ==> steps[i] != Forget(r))
    && r in states[e].readers && states[e].readers[r].Done?
  }

  /** A step of a reader, which changes neither what the reader looks for nor when it began. */
  predicate IsReaderStep(step: Step)
  {
    step.LiveScan? || step.Register? || step.PickCopy? || step.ScanCopy? || step.Unregister? || step.ReadStorage?
  }

  lemma ReaderStep(hash: Key -> nat, s: State, step: Step, r: nat)
    requires Enabled(s, step) && IsReaderStep(step) && r in s.readers
    ensures var s' := Apply(hash, s, step);
            r in s'.readers && s'.readers[r].key == s.readers[r].key && s'.readers[r].begun == s.readers[r].begun
  {}

  lemma OtherStep(hash: Key -> nat, s: State, step: Step, r: nat)
    requires Enabled(s, step) && !IsReaderStep(step) && r in s.readers && step != Forget(r)
    ensures var s' := Apply(hash, s, step);
            r in s'.readers && s'.readers[r] == s.readers[r]
  {}

  lemma StepKeepsReader(hash: Key -> nat, keys: set<Key>, s: State, step: Step, s': State, r: nat)
    requires Moved(hash, keys, s, step, s') && r in s.readers && step != Forget(r)
    ensures r in s'.readers && s'.readers[r].key == s.readers[r].key && s'.readers[r].begun == s.readers[r].begun
  {
    if IsReaderStep(step) {
      ReaderStep(hash, s, step, r);
    } else {
      OtherStep(hash, s, step, r);
    }
  }

  lemma {:induction false} GetKeepsReader(hash: Key -> nat, keys: set<Key>, states: seq<State>, steps: seq<Step>,
                                          r: nat, key: Key, s: nat, e: nat)
    requires IsRun(hash, keys, states, steps) && s < e < |states|
    requires steps[s] == LiveScan(r, key) && forall i :: s < i < e ==> steps[i] != Forget(r)
    ensures r in states[e].readers && states[e].readers[r].key == key
    ensures states[e].readers[r].begun == |states[s].history|
    decreases e
  {
    assert Moved(hash, keys, states[e - 1], steps[e - 1], states[e]);
    if s < e - 1 {
      GetKeepsReader(hash, keys, states, steps, r, key, s, e - 1);
      StepKeepsReader(hash, keys, states[e - 1], steps[e - 1], states[e], r);
    }
  }

  /**
   * Reads linearize: in every run, whatever a Get returns is the answer of the logical map at some
   * instant between its first step and its last.
   */
  lemma GetLinearizes(hash: Key -> nat, keys: set<Key>, states: seq<State>, steps: seq<Step>,
                      r: nat, key: Key, s: nat, e: nat)
    requires Distinct(hash, keys) && IsRun(hash, keys, states, steps) && IsGet(states, steps, r, key, s, e)
    ensures exists t :: s <= t <= e && Answer(states[e].readers[r].status) == Lookup(states[t].history, key)
  {
    RunKeepsInv(hash, keys, states, steps, e);
    GetKeepsReader(hash, keys, states, steps, r, key, s, e);
    var g := states[e].readers[r];
    assert ReaderMatches(states[e], g);
    assert Linearized(states[e].history, key, g.begun, g.status);
    var m :| g.begun <= m <= |states[e].history| && Answer(g.status) == Lookup(states[e].history[..m], key);
    var t := HistoryReaches(hash, keys, states, steps, s, e, m);
    assert s <= t <= e && Answer(g.status) == Lookup(states[t].history, key);
  }

  /** There are such runs: a Get right after a write returns what was written. */
  lemma GetsHappen(hash: Key -> nat, key: Key, value: Value) returns (states: seq<State>, steps: seq<Step>)
    ensures IsRun(hash, {key}, states, steps) && IsGet(states, steps, 0, key, 1, 2)
    ensures Answer(states[2].readers[0].status) == Some(value)
  {
    var order := Put(key, value);
    var s1 := Apply(hash, INIT, Write(order));
    assert s1.Buffer(s1.live) == [order];
    LastOrderIs([order], key, 0);
    var s2 := Apply(hash, s1, LiveScan(0, key));
    states, steps := [INIT, s1, s2], [Write(order), LiveScan(0, key)];
  }
}
