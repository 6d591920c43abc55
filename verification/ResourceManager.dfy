/** The size accounting of FileResourceManager. */
module ResourceManager {

  import opened Words

  /** The sum of the sizes of some files. */
  ghost function Sum(ids: set<nat>, sizes: map<nat, nat>): nat
    requires ids <= sizes.Keys
    decreases |ids|
  {
    if ids == {} then 0
    else
      var id :| id in ids;
      sizes[id] + Sum(ids - {id}, sizes)
  }

  /** The sum does not depend on the order of the files. */
  lemma {:induction false} SumSplit(ids: set<nat>, sizes: map<nat, nat>, id: nat)
    requires ids <= sizes.Keys && id in ids
    ensures Sum(ids, sizes) == sizes[id] + Sum(ids - {id}, sizes)
    decreases |ids|
  {
    var first :| first in ids && Sum(ids, sizes) == sizes[first] + Sum(ids - {first}, sizes);
    if first != id {
      SumSplit(ids - {first}, sizes, id);
      SumSplit(ids - {id}, sizes, first);
      assert ids - {first} - {id} == ids - {id} - {first};
    }
  }

  lemma {:induction false} SumAgrees(ids: set<nat>, a: map<nat, nat>, b: map<nat, nat>)
    requires ids <= a.Keys && ids <= b.Keys && forall id :: id in ids ==> a[id] == b[id]
    ensures Sum(ids, a) == Sum(ids, b)
    decreases |ids|
  {
    if ids != {} {
      var id :| id in ids;
      SumSplit(ids, a, id);
      SumSplit(ids, b, id);
      SumAgrees(ids - {id}, a, b);
    }
  }

  function SizeOf(sizes: map<nat, nat>, id: nat): nat
  {
    if id in sizes then sizes[id] else 0
  }

  /** Setting the size of one of the files counted. */
  lemma SumSet(ids: set<nat>, sizes: map<nat, nat>, id: nat, size: nat)
    requires ids <= sizes.Keys && (id in ids || id !in sizes)
    ensures Sum(ids + {id}, sizes[id := size]) == Sum(ids, sizes) - SizeOf(sizes, id) + size
  {
    var sizes' := sizes[id := size];
    SumSplit(ids + {id}, sizes', id);
    assert ids + {id} - {id} == ids - {id};
    SumAgrees(ids - {id}, sizes, sizes');
    if id in ids {
      SumSplit(ids, sizes, id);
    } else {
      assert ids - {id} == ids;
    }
  }

  lemma SumDrop(ids: set<nat>, sizes: map<nat, nat>, id: nat)
    requires ids <= sizes.Keys && (id in ids || id !in sizes)
    ensures Sum(ids - {id}, sizes - {id}) == Sum(ids, sizes) - SizeOf(sizes, id)
  {
    SumAgrees(ids - {id}, sizes, sizes - {id});
    if id in ids {
      SumSplit(ids, sizes, id);
    } else {
      assert ids - {id} == ids;
    }
  }

  // ----- The two totals -----

  ghost function Total(sizes: map<nat, nat>): nat
  {
    Sum(sizes.Keys, sizes)
  }

  ghost function Uncompacted(sizes: map<nat, nat>, compacted: set<nat>): nat
  {
    Sum(sizes.Keys - compacted, sizes)
  }

  lemma TotalsSet(sizes: map<nat, nat>, compacted: set<nat>, id: nat, size: nat)
    ensures Total(sizes[id := size]) == Total(sizes) - SizeOf(sizes, id) + size
    ensures Uncompacted(sizes[id := size], compacted)
         == if id in compacted then Uncompacted(sizes, compacted)
            else Uncompacted(sizes, compacted) - SizeOf(sizes, id) + size
  {
    var sizes', counted := sizes[id := size], sizes.Keys - compacted;
    assert sizes'.Keys == sizes.Keys + {id};
    SumSet(sizes.Keys, sizes, id, size);
    if id in compacted {
      assert sizes'.Keys - compacted == counted;
      SumAgrees(counted, sizes, sizes');
    } else {
      assert sizes'.Keys - compacted == counted + {id};
      SumSet(counted, sizes, id, size);
    }
  }

  lemma TotalsClear(sizes: map<nat, nat>, compacted: set<nat>, id: nat)
    ensures Total(sizes - {id}) == Total(sizes) - SizeOf(sizes, id)
    ensures Uncompacted(sizes - {id}, compacted - {id})
         == if id in compacted then Uncompacted(sizes, compacted) else Uncompacted(sizes, compacted) - SizeOf(sizes, id)
  {
    var sizes', counted := sizes - {id}, sizes.Keys - compacted;
    assert sizes'.Keys == sizes.Keys - {id};
    assert sizes'.Keys - (compacted - {id}) == counted - {id};
    SumDrop(sizes.Keys, sizes, id);
    if id in compacted {
      assert counted - {id} == counted;
      SumAgrees(counted, sizes, sizes');
    } else {
      SumDrop(counted, sizes, id);
    }
  }

  lemma TotalsCompact(sizes: map<nat, nat>, compacted: set<nat>, id: nat)
    requires id !in compacted
    ensures Uncompacted(sizes, compacted + {id}) == Uncompacted(sizes, compacted) - SizeOf(sizes, id)
  {
    var counted := sizes.Keys - compacted;
    assert sizes.Keys - (compacted + {id}) == counted - {id};
    if id in sizes {
      SumSplit(counted, sizes, id);
    } else {
      assert counted - {id} == counted;
    }
  }

  lemma {:induction false} SumOfSome(some: set<nat>, ids: set<nat>, sizes: map<nat, nat>)
    requires some <= ids <= sizes.Keys
    ensures Sum(some, sizes) <= Sum(ids, sizes)
    decreases |ids - some|
  {
    if id :| id in ids - some {
      SumSplit(ids, sizes, id);
      SumOfSome(some, ids - {id}, sizes);
    } else {
      assert some == ids;
    }
  }

  /** Adding a signed increment to an unsigned 64-bit counter. */
  function Increment(counter: nat, inc: int): nat
  {
    (counter + inc) % TWO64
  }

  /** A counter that is a sum modulo 2^64 stays one. */
  ghost predicate Counts(counter: nat, sum: nat)
  {
    counter == sum % TWO64
  }

  lemma IncrementCounts(counter: nat, sum: nat, inc: int, sum': nat)
    requires Counts(counter, sum) && sum' == sum + inc
    ensures Counts(Increment(counter, inc), sum')
  {}

  class FileResourceManager {
    var filesizes: map<nat, nat>
    var largefiles: set<nat>
    var compacted: set<nat>
    var total: nat
    var uncompacted: nat

    /** The counters are the sums of the sizes of all files and of the files not compacted, as 64-bit integers. */
    ghost predicate Valid()
      reads this
    {
      Counts(total, Total(filesizes)) && Counts(uncompacted, Uncompacted(filesizes, compacted))
    }

    /** As long as the sizes add up to less than 2^64, the counters are the sums. */
    lemma CountersAreSums()
      requires Valid() && Total(filesizes) < TWO64
      ensures total == Total(filesizes) && uncompacted == Uncompacted(filesizes, compacted)
    {
      SumOfSome(filesizes.Keys - compacted, filesizes.Keys, filesizes);
    }

    constructor ()
      ensures Valid() && filesizes == map[] && compacted == {} && largefiles == {}
    {
      filesizes, largefiles, compacted, total, uncompacted := map[], {}, {}, 0, 0;
    }

    method ClearAllDataForFileId(id: nat)
      requires Valid()
      modifies this
      ensures Valid() && filesizes == old(filesizes) - {id} && compacted == old(compacted) - {id}
      ensures largefiles == old(largefiles) - {id}
    {
      var size: int := SizeOf(filesizes, id);
      TotalsClear(filesizes, compacted, id);
      IncrementCounts(total, Total(filesizes), -size, Total(filesizes - {id}));
      total := Increment(total, -size);
      if id !in compacted {
        IncrementCounts(uncompacted, Uncompacted(filesizes, compacted), -size,
                        Uncompacted(filesizes - {id}, compacted - {id}));
        uncompacted := Increment(uncompacted, -size);
      }
      filesizes := filesizes - {id};
      largefiles := largefiles - {id};
      compacted := compacted - {id};
    }

    /** GetFileSize, which registers a file that is not known with size 0. */
    method GetFileSize(id: nat) returns (size: nat)
      requires Valid()
      modifies this
      ensures Valid() && size == SizeOf(old(filesizes), id) && filesizes == old(filesizes)[id := size]
      ensures compacted == old(compacted) && total == old(total) && uncompacted == old(uncompacted)
      ensures largefiles == old(largefiles)
    {
      size := SizeOf(filesizes, id);
      TotalsSet(filesizes, compacted, id, size);
      filesizes := filesizes[id := size];
    }

    method SetFileSize(id: nat, size: nat)
      requires Valid()
      modifies this
      ensures Valid() && filesizes == old(filesizes)[id := size]
      ensures compacted == old(compacted) && largefiles == old(largefiles)
    {
      var inc: int := size - SizeOf(filesizes, id);
      TotalsSet(filesizes, compacted, id, size);
      IncrementCounts(total, Total(filesizes), inc, Total(filesizes[id := size]));
      total := Increment(total, inc);
      if id !in compacted {
        IncrementCounts(uncompacted, Uncompacted(filesizes, compacted), inc,
                        Uncompacted(filesizes[id := size], compacted));
        uncompacted := Increment(uncompacted, inc);
      }
      filesizes := filesizes[id := size];
    }

    method SetFileCompacted(id: nat)
      requires Valid()
      modifies this
      ensures Valid() && compacted == old(compacted) + {id}
      ensures filesizes == old(filesizes) && largefiles == old(largefiles)
    {
      if id in compacted {
        assert compacted + {id} == compacted;
        return;
      }
      TotalsCompact(filesizes, compacted, id);
      if id in filesizes {
        var size: int := filesizes[id];
        uncompacted := Increment(uncompacted, -size);
      }
      compacted := compacted + {id};
    }

    method SetFileLarge(id: nat)
      requires Valid()
      modifies this
      ensures Valid() && compacted == old(compacted) + {id} && largefiles == old(largefiles) + {id}
      ensures filesizes == old(filesizes)
    {
      largefiles := largefiles + {id};
      SetFileCompacted(id);
    }
  }
}
