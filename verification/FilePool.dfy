/** The pool of memory maps shared by the readers of a file, with their reference counts. */
module FilePool {
  import opened Bytes

  const MAX_NUM_FILES := 2048

  datatype Resource = Resource(fileid: nat, filesize: nat, mmap: nat, references: nat)

  /** What GetFile gives out. */
  datatype Handle = Handle(fileid: nat, filesize: nat, mmap: nat)

  function HandleOf(r: Resource): Handle { Handle(r.fileid, r.filesize, r.mmap) }

  predicate Same(a: Resource, b: Resource) { a.fileid == b.fileid && a.filesize == b.filesize }

  /** No two resources are for the same file and size, or have the same map. */
  ghost predicate Apart(s: seq<Resource>)
  {
    forall i, j :: 0 <= i < j < |s| ==> !Same(s[i], s[j]) && s[i].mmap != s[j].mmap
  }

  ghost predicate AcrossApart(a: seq<Resource>, b: seq<Resource>)
  {
    forall i, j :: 0 <= i < |a| && 0 <= j < |b| ==> !Same(a[i], b[j]) && a[i].mmap != b[j].mmap
  }

  function Without(s: seq<Resource>, i: nat): (r: seq<Resource>)
    requires i < |s|
    ensures |r| == |s| - 1 && forall j :: 0 <= j < |r| ==> r[j] == s[if j < i then j else j + 1]
  {
    s[..i] + s[i + 1..]
  }

  /** A resource for a file and a size is mapped somewhere. */
  ghost predicate HasFile(s: seq<Resource>, fileid: nat, filesize: nat, mmap: nat)
  {
    exists i :: 0 <= i < |s| && s[i].fileid == fileid && s[i].filesize == filesize && s[i].mmap == mmap
  }

  lemma OtherIsLeft(s: seq<Resource>, i: nat, fileid: nat, filesize: nat)
    requires i < |s| && !(s[i].fileid == fileid && s[i].filesize == filesize)
    ensures forall m :: HasFile(s, fileid, filesize, m) ==> HasFile(Without(s, i), fileid, filesize, m)
  {
    forall m | HasFile(s, fileid, filesize, m)
      ensures HasFile(Without(s, i), fileid, filesize, m)
    {
      var j :| 0 <= j < |s| && s[j].fileid == fileid && s[j].filesize == filesize && s[j].mmap == m;
      assert Without(s, i)[if j < i then j else j - 1] == s[j];
    }
  }

  lemma NotInBoth(a: seq<Resource>, b: seq<Resource>, i: nat)
    requires AcrossApart(a, b) && i < |a|
    ensures forall m :: !HasFile(b, a[i].fileid, a[i].filesize, m)
  {}

  lemma IsTheOne(s: seq<Resource>, i: nat)
    requires Apart(s) && i < |s|
    ensures forall m :: HasFile(s, s[i].fileid, s[i].filesize, m) ==> m == s[i].mmap
  {}

  ghost predicate HasMap(s: seq<Resource>, m: nat)
  {
    exists i :: 0 <= i < |s| && s[i].mmap == m
  }

  ghost predicate HasHandle(s: seq<Resource>, h: Handle)
  {
    exists i :: 0 <= i < |s| && HandleOf(s[i]) == h
  }

  /** Unused resources have no references; used ones have as many as there are handles out, and at least one. */
  ghost predicate Counted(unused: seq<Resource>, used: seq<Resource>, handles: multiset<Handle>)
  {
    && (forall i :: 0 <= i < |unused| ==> unused[i].references == 0)
    && (forall i :: 0 <= i < |used| ==> used[i].references == handles[HandleOf(used[i])] > 0)
    && (forall h :: h in handles ==> HasHandle(used, h))
  }

  /** What is mapped is what is held. */
  ghost predicate Mapped(unused: seq<Resource>, used: seq<Resource>, mapped: set<nat>, next: nat)
  {
    && (forall m :: m in mapped <==> HasMap(unused, m) || HasMap(used, m))
    && (forall m :: m in mapped ==> m < next)
  }

  class FileManager {
    var unused: seq<Resource>
    var used: seq<Resource>
    /** Where the next map goes: an address that no other map has. */
    var next: nat
    ghost var handles: multiset<Handle>
    ghost var mapped: set<nat>

    ghost predicate Valid()
      reads this
    {
      Holds(unused, used, handles, mapped, next)
    }

    /** No map with a handle out is ever gone. */
    lemma HandlesAreMapped(h: Handle)
      requires Valid() && h in handles
      ensures h.mmap in mapped
    {
      var i :| 0 <= i < |used| && HandleOf(used[i]) == h;
      assert HasMap(used, h.mmap);
    }

    constructor ()
      ensures Valid() && handles == multiset{} && unused == used == []
    {
      unused, used, next, handles, mapped := [], [], 0, multiset{}, {};
    }

    /** munmap of an unused resource, which no handle refers to. */
    method DropUnused(i: nat)
      requires Valid() && i < |unused|
      modifies this`unused, this`mapped
      ensures Valid() && unused == Without(old(unused), i)
      ensures forall h :: h in handles ==> h.mmap != old(unused[i]).mmap
    {
      DropKeeps(unused, used, handles, mapped, next, i);
      mapped := mapped - {unused[i].mmap};
      unused := Without(unused, i);
    }

    /** The search among the unused resources, which drops those of the same file with another size on its way. */
    method FindUnused(fileid: nat, filesize: nat) returns (i: nat)
      requires Valid()
      modifies this`unused, this`mapped
      ensures Valid() && i <= |unused|
      ensures i < |unused| ==> unused[i].fileid == fileid && unused[i].filesize == filesize
      ensures i == |unused| ==> forall j :: 0 <= j < |unused| ==> unused[j].fileid != fileid
      ensures |unused| <= |old(unused)|
      ensures forall m :: HasFile(old(unused), fileid, filesize, m) ==> i < |unused| && unused[i].mmap == m
    {
      i := 0;
      while i < |unused|
        invariant Valid() && i <= |unused|
        invariant forall j :: 0 <= j < i ==> unused[j].fileid != fileid
        invariant |unused| <= |old(unused)|
        invariant forall m :: HasFile(old(unused), fileid, filesize, m) ==> HasFile(unused, fileid, filesize, m)
        decreases |unused| - i
      {
        if unused[i].fileid != fileid {
          i := i + 1;
        } else if unused[i].filesize == filesize {
          break;
        } else {
          OtherIsLeft(unused, i, fileid, filesize);
          DropUnused(i);
        }
      }
    }

    method FindUsed(fileid: nat, filesize: nat) returns (i: nat)
      ensures i <= |used|
      ensures i < |used| ==> used[i].fileid == fileid && used[i].filesize == filesize
      ensures i == |used| ==> forall j :: 0 <= j < |used| ==>
                !(used[j].fileid == fileid && used[j].filesize == filesize)
    {
      i := 0;
      while i < |used|
        invariant i <= |used|
        invariant forall j :: 0 <= j < i ==> !(used[j].fileid == fileid && used[j].filesize == filesize)
      {
        if used[i].fileid == fileid && used[i].filesize == filesize {
          break;
        }
        i := i + 1;
      }
    }

    /** An unused resource is given out. */
    method Reuse(i: nat) returns (r: Resource)
      requires Valid() && i < |unused|
      modifies this`unused, this`used, this`handles
      ensures Valid() && HandleOf(r) == HandleOf(old(unused[i])) && r.mmap in mapped
      ensures handles == old(handles) + multiset{HandleOf(r)} && |unused| + |used| == |old(unused)| + |old(used)|
    {
      ghost var unused0, used0, handles0 := unused, used, handles;
      r := unused[i].(references := 1);
      unused := Without(unused, i);
      used := used + [r];
      handles := handles + multiset{HandleOf(r)};
      ReuseKeeps(unused0, used0, handles0, mapped, next, i, r);
    }

    /** A used resource is given out once more. */
    method Share(i: nat) returns (r: Resource)
      requires Valid() && i < |used|
      modifies this`used, this`handles
      ensures Valid() && HandleOf(r) == HandleOf(old(used[i])) && r.mmap in mapped
      ensures handles == old(handles) + multiset{HandleOf(r)} && |used| == |old(used)|
    {
      ghost var used0, handles0 := used, handles;
      r := used[i].(references := used[i].references + 1);
      used := used[i := r];
      handles := handles + multiset{HandleOf(r)};
      RecountKeeps(unused, used0, handles0, mapped, next, i, r, handles);
    }

    /** A file is opened and mapped. */
    method OpenNew(fileid: nat, filesize: nat) returns (r: Resource)
      requires Valid()
      requires forall j :: 0 <= j < |unused| ==> unused[j].fileid != fileid
      requires forall j :: 0 <= j < |used| ==> !(used[j].fileid == fileid && used[j].filesize == filesize)
      modifies this`used, this`handles, this`mapped, this`next
      ensures Valid() && r.fileid == fileid && r.filesize == filesize && r.mmap in mapped
      ensures handles == old(handles) + multiset{HandleOf(r)} && |used| == |old(used)| + 1
    {
      ghost var used0, handles0, mapped0 := used, handles, mapped;
      r := Resource(fileid, filesize, next, 1);
      used := used + [r];
      mapped := mapped + {next};
      handles := handles + multiset{HandleOf(r)};
      OpenKeeps(unused, used0, handles0, mapped0, next, r);
      next := next + 1;
    }

    /** GetFile; `opens` is whether a file that is not in the pool can be opened and mapped. */
    method GetFile(fileid: nat, filesize: nat, opens: bool) returns (r: Option<Resource>)
      requires Valid()
      modifies this
      ensures Valid()
      ensures r.Some? ==> r.value.fileid == fileid && r.value.filesize == filesize && r.value.mmap in mapped
      ensures r.Some? ==> handles == old(handles) + multiset{HandleOf(r.value)}
      ensures r.None? ==> !opens && handles == old(handles)
      ensures forall m :: HasFile(old(unused), fileid, filesize, m) || HasFile(old(used), fileid, filesize, m) ==>
                r.Some? && r.value.mmap == m
      ensures |unused| + |used| <= |old(unused)| + |old(used)| || |unused| + |used| <= MAX_NUM_FILES + 1 || unused == []
    {
      var i := FindUnused(fileid, filesize);
      if i < |unused| {
        NotInBoth(unused, used, i);
        var file := Reuse(i);
        return Some(file);
      }
      var k := FindUsed(fileid, filesize);
      if k < |used| {
        IsTheOne(used, k);
        var file := Share(k);
        return Some(file);
      }
      r := OpenAnother(fileid, filesize, opens);
    }

    /** A file that is not in the pool is opened, and an unused one dropped for it if there are too many. */
    method OpenAnother(fileid: nat, filesize: nat, opens: bool) returns (r: Option<Resource>)
      requires Valid()
      requires forall j :: 0 <= j < |unused| ==> unused[j].fileid != fileid
      requires forall j :: 0 <= j < |used| ==> !(used[j].fileid == fileid && used[j].filesize == filesize)
      modifies this
      ensures Valid() && (r.None? <==> !opens)
      ensures r.Some? ==> r.value.fileid == fileid && r.value.filesize == filesize && r.value.mmap in mapped
      ensures handles == if r.None? then old(handles) else old(handles) + multiset{HandleOf(r.value)}
      ensures |unused| + |used| <= |old(unused)| + |old(used)| || |unused| + |used| <= MAX_NUM_FILES + 1 || unused == []
    {
      if |unused| + |used| > MAX_NUM_FILES && unused != [] {
        DropUnused(0);
      }
      if !opens {
        return None;
      }
      var file := OpenNew(fileid, filesize);
      r := Some(file);
    }

    lemma HandlesOfNone(fileid: nat, filesize: nat)
      requires Valid() && forall j :: 0 <= j < |used| ==> !(used[j].fileid == fileid && used[j].filesize == filesize)
      ensures forall h :: h in handles ==> !(h.fileid == fileid && h.filesize == filesize)
    {
      forall h | h in handles
        ensures !(h.fileid == fileid && h.filesize == filesize)
      {
        var k :| 0 <= k < |used| && HandleOf(used[k]) == h;
      }
    }

    /** All handles for a file and a size are for one map. */
    lemma HandlesOfOne(i: nat)
      requires Valid() && i < |used|
      ensures forall h :: h in handles && h.fileid == used[i].fileid && h.filesize == used[i].filesize ==>
                h == HandleOf(used[i])
    {
      forall h | h in handles && h.fileid == used[i].fileid && h.filesize == used[i].filesize
        ensures h == HandleOf(used[i])
      {
        var k :| 0 <= k < |used| && HandleOf(used[k]) == h;
      }
    }

    /** ReleaseFile: the last handle of a resource leaves it unused, and still mapped. */
    method ReleaseFile(fileid: nat, filesize: nat)
      requires Valid()
      modifies this`unused, this`used, this`handles
      ensures Valid()
      ensures if h :| h in old(handles) && h.fileid == fileid && h.filesize == filesize
              then handles == old(handles) - multiset{h} else handles == old(handles)
    {
      var i := FindUsed(fileid, filesize);
      if i == |used| {
        HandlesOfNone(fileid, filesize);
        return;
      }
      HandlesOfOne(i);
      Release(i);
    }

    method Release(i: nat)
      requires Valid() && i < |used|
      modifies this`unused, this`used, this`handles
      ensures Valid() && handles == old(handles) - multiset{HandleOf(old(used[i]))}
    {
      ghost var unused0, used0, handles0 := unused, used, handles;
      handles := handles - multiset{HandleOf(used[i])};
      if used[i].references > 1 {
        var r := used[i].(references := used[i].references - 1);
        used := used[i := r];
        RecountKeeps(unused, used0, handles0, mapped, next, i, r, handles);
      } else {
        unused := unused + [used[i].(references := 0)];
        used := Without(used, i);
        ReleaseKeeps(unused0, used0, handles0, mapped, next, i);
      }
    }
  }

  ghost predicate Holds(unused: seq<Resource>, used: seq<Resource>, handles: multiset<Handle>, mapped: set<nat>,
                        next: nat)
  {
    && Apart(unused) && Apart(used) && AcrossApart(unused, used)
    && Counted(unused, used, handles) && Mapped(unused, used, mapped, next)
  }

  lemma DropKeeps(unused: seq<Resource>, used: seq<Resource>, handles: multiset<Handle>, mapped: set<nat>, next: nat,
                  i: nat)
    requires Holds(unused, used, handles, mapped, next) && i < |unused|
    ensures Holds(Without(unused, i), used, handles, mapped - {unused[i].mmap}, next)
    ensures forall h :: h in handles ==> h.mmap != unused[i].mmap
  {
    forall h | h in handles
      ensures h.mmap != unused[i].mmap
    {
      var k :| 0 <= k < |used| && HandleOf(used[k]) == h;
    }
    forall x
      ensures x in mapped - {unused[i].mmap} <==> HasMap(Without(unused, i), x) || HasMap(used, x)
    {
      if x != unused[i].mmap {
        MapDropped(unused, i, x);
      }
    }
  }

  lemma MapDropped(a: seq<Resource>, i: nat, m: nat)
    requires i < |a| && m != a[i].mmap
    ensures HasMap(Without(a, i), m) <==> HasMap(a, m)
  {
    if HasMap(a, m) {
      var k :| 0 <= k < |a| && a[k].mmap == m;
      assert Without(a, i)[if k < i then k else k - 1].mmap == m;
    }
  }

  /** What is held stays what is mapped when a resource moves. */
  lemma MapsMove(a: seq<Resource>, i: nat, b: seq<Resource>, r: Resource, m: nat)
    requires i < |a| && r.mmap == a[i].mmap
    ensures HasMap(a, m) || HasMap(b, m) <==> HasMap(Without(a, i), m) || HasMap(b + [r], m)
  {
    var a', b' := Without(a, i), b + [r];
    if HasMap(a, m) {
      var k :| 0 <= k < |a| && a[k].mmap == m;
      if k == i {
        assert b'[|b|].mmap == m;
      } else {
        assert a'[if k < i then k else k - 1].mmap == m;
      }
    }
    if HasMap(b, m) {
      var k :| 0 <= k < |b| && b[k].mmap == m;
      assert b'[k].mmap == m;
    }
  }

  /** A resource whose map or file and size no used resource has, has no handle out. */
  lemma NoHandle(unused: seq<Resource>, used: seq<Resource>, handles: multiset<Handle>, h: Handle)
    requires Counted(unused, used, handles) && forall k :: 0 <= k < |used| ==> HandleOf(used[k]) != h
    ensures handles[h] == 0
  {
    assert !HasHandle(used, h);
  }

  /** One more used resource, with one handle out. */
  lemma CountedMore(unused: seq<Resource>, used: seq<Resource>, handles: multiset<Handle>, unused': seq<Resource>,
                    r: Resource)
    requires Counted(unused, used, handles) && forall k :: 0 <= k < |used| ==> HandleOf(used[k]) != HandleOf(r)
    requires (forall i :: 0 <= i < |unused'| ==> unused'[i].references == 0) && r.references == 1
    ensures Counted(unused', used + [r], handles + multiset{HandleOf(r)})
  {
    var used', handles' := used + [r], handles + multiset{HandleOf(r)};
    NoHandle(unused, used, handles, HandleOf(r));
    forall h | h in handles'
      ensures HasHandle(used', h)
    {
      if h in handles {
        var k :| 0 <= k < |used| && HandleOf(used[k]) == h;
        assert HandleOf(used'[k]) == h;
      } else {
        assert HandleOf(used'[|used|]) == h;
      }
    }
  }

  lemma ReuseKeeps(unused: seq<Resource>, used: seq<Resource>, handles: multiset<Handle>, mapped: set<nat>, next: nat,
                   i: nat, r: Resource)
    requires Holds(unused, used, handles, mapped, next) && i < |unused| && r == unused[i].(references := 1)
    ensures Holds(Without(unused, i), used + [r], handles + multiset{HandleOf(r)}, mapped, next) && r.mmap in mapped
  {
    CountedMore(unused, used, handles, Without(unused, i), r);
    assert HasMap(unused, r.mmap);
    forall m
      ensures HasMap(unused, m) || HasMap(used, m) <==> HasMap(Without(unused, i), m) || HasMap(used + [r], m)
    {
      MapsMove(unused, i, used, r, m);
    }
  }

  lemma RecountKeepsCounted(unused: seq<Resource>, used: seq<Resource>, handles: multiset<Handle>, i: nat, r: Resource,
                            handles': multiset<Handle>)
    requires Counted(unused, used, handles) && Apart(used) && i < |used| && HandleOf(r) == HandleOf(used[i])
    requires r.references > 0 && handles' == handles[HandleOf(r) := r.references]
    ensures Counted(unused, used[i := r], handles')
  {
    var used' := used[i := r];
    forall h | h in handles'
      ensures HasHandle(used', h)
    {
      if h == HandleOf(r) {
        assert HandleOf(used'[i]) == h;
      } else {
        var k :| 0 <= k < |used| && HandleOf(used[k]) == h;
        assert HandleOf(used'[k]) == h;
      }
    }
    forall k | 0 <= k < |used'|
      ensures used'[k].references == handles'[HandleOf(used'[k])] > 0
    {
      assert k != i ==> HandleOf(used[k]) != HandleOf(r);
    }
  }

  lemma RecountKeepsMaps(used: seq<Resource>, i: nat, r: Resource, m: nat)
    requires i < |used| && HandleOf(r) == HandleOf(used[i])
    ensures HasMap(used[i := r], m) <==> HasMap(used, m)
  {
    var used' := used[i := r];
    if HasMap(used, m) {
      var k :| 0 <= k < |used| && used[k].mmap == m;
      assert used'[k].mmap == m;
    }
    if HasMap(used', m) {
      var k :| 0 <= k < |used'| && used'[k].mmap == m;
      assert used[k].mmap == m;
    }
  }

  lemma RecountKeepsApart(unused: seq<Resource>, used: seq<Resource>, i: nat, r: Resource)
    requires Apart(used) && AcrossApart(unused, used) && i < |used| && HandleOf(r) == HandleOf(used[i])
    ensures Apart(used[i := r]) && AcrossApart(unused, used[i := r])
  {}

  lemma RecountKeeps(unused: seq<Resource>, used: seq<Resource>, handles: multiset<Handle>, mapped: set<nat>, next: nat,
                     i: nat, r: Resource, handles': multiset<Handle>)
    requires Holds(unused, used, handles, mapped, next) && i < |used| && HandleOf(r) == HandleOf(used[i])
    requires r.references > 0 && handles' == handles[HandleOf(r) := r.references]
    ensures Holds(unused, used[i := r], handles', mapped, next) && r.mmap in mapped
  {
    RecountKeepsCounted(unused, used, handles, i, r, handles');
    RecountKeepsApart(unused, used, i, r);
    assert used[i].mmap == r.mmap;
    assert HasMap(used, r.mmap);
    forall m
      ensures HasMap(used[i := r], m) <==> HasMap(used, m)
    {
      RecountKeepsMaps(used, i, r, m);
    }
  }

  lemma MapsBelow(unused: seq<Resource>, used: seq<Resource>, mapped: set<nat>, next: nat)
    requires Mapped(unused, used, mapped, next)
    ensures forall k :: 0 <= k < |unused| ==> unused[k].mmap < next
    ensures forall k :: 0 <= k < |used| ==> used[k].mmap < next
  {
    forall k | 0 <= k < |unused|
      ensures unused[k].mmap < next
    {
      assert HasMap(unused, unused[k].mmap);
    }
    forall k | 0 <= k < |used|
      ensures used[k].mmap < next
    {
      assert HasMap(used, used[k].mmap);
    }
  }

  lemma MapsMore(used: seq<Resource>, r: Resource, m: nat)
    ensures HasMap(used + [r], m) <==> HasMap(used, m) || m == r.mmap
  {
    var used' := used + [r];
    if HasMap(used, m) {
      var k :| 0 <= k < |used| && used[k].mmap == m;
      assert used'[k].mmap == m;
    }
    if m == r.mmap {
      assert used'[|used|].mmap == m;
    }
  }

  lemma OpenKeeps(unused: seq<Resource>, used: seq<Resource>, handles: multiset<Handle>, mapped: set<nat>, next: nat,
                  r: Resource)
    requires Holds(unused, used, handles, mapped, next) && r.mmap == next && r.references == 1
    requires forall j :: 0 <= j < |unused| ==> !Same(unused[j], r)
    requires forall j :: 0 <= j < |used| ==> !Same(used[j], r)
    ensures Holds(unused, used + [r], handles + multiset{HandleOf(r)}, mapped + {next}, next + 1)
  {
    MapsBelow(unused, used, mapped, next);
    CountedMore(unused, used, handles, unused, r);
    forall m
      ensures HasMap(used + [r], m) <==> HasMap(used, m) || m == next
    {
      MapsMore(used, r, m);
    }
  }

  lemma ReleaseKeepsCounted(unused: seq<Resource>, used: seq<Resource>, handles: multiset<Handle>, i: nat)
    requires Counted(unused, used, handles) && Apart(used) && i < |used| && used[i].references == 1
    ensures Counted(unused + [used[i].(references := 0)], Without(used, i), handles - multiset{HandleOf(used[i])})
  {
    var h0 := HandleOf(used[i]);
    var used', handles' := Without(used, i), handles - multiset{h0};
    assert handles'[h0] == 0;
    forall h | h in handles'
      ensures HasHandle(used', h)
    {
      var k :| 0 <= k < |used| && HandleOf(used[k]) == h;
      assert HandleOf(used'[if k < i then k else k - 1]) == h;
    }
    forall j | 0 <= j < |used'|
      ensures used'[j].references == handles'[HandleOf(used'[j])] > 0
    {
      var k := if j < i then j else j + 1;
      assert used'[j] == used[k] && HandleOf(used[k]) != h0;
    }
  }

  lemma ReleaseKeepsApart(unused: seq<Resource>, used: seq<Resource>, i: nat)
    requires Apart(unused) && Apart(used) && AcrossApart(unused, used) && i < |used|
    ensures Apart(unused + [used[i].(references := 0)]) && Apart(Without(used, i))
    ensures AcrossApart(unused + [used[i].(references := 0)], Without(used, i))
  {}

  lemma ReleaseKeeps(unused: seq<Resource>, used: seq<Resource>, handles: multiset<Handle>, mapped: set<nat>, next: nat,
                     i: nat)
    requires Holds(unused, used, handles, mapped, next) && i < |used| && used[i].references == 1
    ensures Holds(unused + [used[i].(references := 0)], Without(used, i), handles - multiset{HandleOf(used[i])}, mapped,
                  next)
  {
    var r := used[i].(references := 0);
    ReleaseKeepsCounted(unused, used, handles, i);
    ReleaseKeepsApart(unused, used, i);
    forall m
      ensures HasMap(used, m) || HasMap(unused, m) <==> HasMap(Without(used, i), m) || HasMap(unused + [r], m)
    {
      MapsMove(used, i, unused, r, m);
    }
  }
}
