/** Orders, the logical map that a history of them stands for, and multimap indexes. */
module Orders {
  import opened Bytes

  type Key = seq<byte>
  type Value = seq<byte>

  /** A self-contained order. */
  datatype Order = Put(key: Key, value: Value) | Delete(key: Key)

  // ----- The logical map -----

  /** The position of the last order for a key, if any. */
  function LastOrder(orders: seq<Order>, key: Key): (r: Option<nat>)
    ensures r.Some? ==> r.value < |orders| && orders[r.value].key == key
    ensures forall p :: 0 <= p < |orders| && orders[p].key == key ==> r.Some? && p <= r.value
    decreases |orders|
  {
    if orders == [] then None
    else if orders[|orders| - 1].key == key then Some(|orders| - 1)
    else LastOrder(orders[..|orders| - 1], key)
  }

  /** What an order says about its key. */
  function Says(o: Order): Option<Value>
  {
    match o
    case Put(_, value) => Some(value)
    case Delete(_) => None
  }

  /** The value of a key after a history of writes. */
  function Lookup(history: seq<Order>, key: Key): Option<Value>
  {
    match LastOrder(history, key)
    case None => None
    case Some(p) => Says(history[p])
  }

  // ----- Indexes -----

  /** A multimap from hashed keys to locations, each bucket in insertion order. */
  type Index<L> = map<nat, seq<L>>

  function Bucket<L>(index: Index<L>, h: nat): seq<L>
  {
    if h in index then index[h] else []
  }

  function Insert<L>(index: Index<L>, h: nat, location: L): (r: Index<L>)
    ensures forall g :: Bucket(r, g) == if g == h then Bucket(index, h) + [location] else Bucket(index, g)
  {
    index[h := Bucket(index, h) + [location]]
  }

  /** The keys in play, which have distinct hashes. */
  ghost predicate Distinct(hash: Key -> nat, keys: set<Key>)
  {
    forall a, b :: a in keys && b in keys && hash(a) == hash(b) ==> a == b
  }

  /** The positions in log[from..end] of entries with a hash. */
  ghost function Positions(hash: Key -> nat, log: seq<Order>, h: nat, from: nat, end: nat): seq<nat>
    requires from <= end <= |log|
    decreases end
  {
    if from == end then []
    else
      var before := Positions(hash, log, h, from, end - 1);
      if hash(log[end - 1].key) == h then before + [end - 1] else before
  }

  /** Positions are increasing, and list exactly the entries with the hash. */
  lemma {:induction false} PositionsAre(hash: Key -> nat, log: seq<Order>, h: nat, from: nat, end: nat)
    requires from <= end <= |log|
    ensures forall p :: p in Positions(hash, log, h, from, end) <==> from <= p < end && hash(log[p].key) == h
    ensures Increasing(Positions(hash, log, h, from, end))
    decreases end
  {
    if from < end {
      PositionsAre(hash, log, h, from, end - 1);
      var before := Positions(hash, log, h, from, end - 1);
      assert forall i :: 0 <= i < |before| ==> before[i] in before;
    }
  }

  ghost predicate Increasing(ps: seq<nat>)
  {
    forall i, j :: 0 <= i < j < |ps| ==> ps[i] < ps[j]
  }

  lemma {:induction false} PositionsPrefix(hash: Key -> nat, log: seq<Order>, more: seq<Order>, h: nat, end: nat)
    requires end <= |log|
    ensures Positions(hash, log + more, h, 0, end) == Positions(hash, log, h, 0, end)
    decreases end
  {
    if end > 0 {
      PositionsPrefix(hash, log, more, h, end - 1);
    }
  }

  // ----- Histories cut in two -----

  lemma LastOrderIs(orders: seq<Order>, key: Key, p: nat)
    requires p < |orders| && orders[p].key == key
    requires forall q :: p < q < |orders| ==> orders[q].key != key
    ensures LastOrder(orders, key) == Some(p)
  {}

  /** The last position of a hash is that of the last order for a key that has it. */
  lemma LastPosition(hash: Key -> nat, keys: set<Key>, orders: seq<Order>, key: Key)
    requires (forall p :: 0 <= p < |orders| ==> orders[p].key in keys) && Distinct(hash, keys) && key in keys
    ensures var ps := Positions(hash, orders, hash(key), 0, |orders|);
            LastOrder(orders, key) == if ps == [] then None else Some(ps[|ps| - 1])
  {
    var ps := Positions(hash, orders, hash(key), 0, |orders|);
    PositionsAre(hash, orders, hash(key), 0, |orders|);
    if ps == [] {
      assert forall p :: 0 <= p < |orders| ==> p !in ps;
    } else {
      var p := ps[|ps| - 1];
      assert p in ps;
      assert forall q :: q in ps ==> q <= p;
      assert forall q :: p < q < |orders| ==> q !in ps;
      LastOrderIs(orders, key, p);
    }
  }

  /** The last order for a key in a history is the last one in its second part, if there is one. */
  lemma {:induction false} LastOrderJoin(a: seq<Order>, b: seq<Order>, key: Key)
    ensures LastOrder(a + b, key) ==
              if LastOrder(b, key).Some? then Some(|a| + LastOrder(b, key).value) else LastOrder(a, key)
    decreases |b|
  {
    if b == [] {
      assert a + b == a;
    } else {
      var front := b[..|b| - 1];
      assert (a + b)[..|a + b| - 1] == a + front;
      LastOrderJoin(a, front, key);
    }
  }

  lemma LookupJoin(a: seq<Order>, b: seq<Order>, key: Key)
    ensures Lookup(a + b, key) == if LastOrder(b, key).Some? then Lookup(b, key) else Lookup(a, key)
  {
    LastOrderJoin(a, b, key);
  }
}
