/**
 * Progress of the write buffer: what is written can always be flushed, by the flush itself and by the readers that
 * are in the copy buffer, and is then found in storage.
 */
module WriteBufferProgress {
  import opened Bytes
  import opened Orders
  import opened WriteBuffer

  // ----- Sizes and the lock -----

  /** The bytes that the orders of a buffer count for. */
  function TotalSize(orders: seq<Order>): nat
    decreases |orders|
  {
    if orders == [] then 0 else TotalSize(orders[..|orders| - 1]) + OrderSize(orders[|orders| - 1])
  }

  /** The sizes kept are those of the buffers, and the copy buffer is locked while it is to be cleared. */
  ghost predicate Accounts(s: State)
  {
    && s.live != s.copy && s.size0 == TotalSize(s.buffer0) && s.size1 == TotalSize(s.buffer1)
    && (s.copyLocked <==> s.phase.Clearing?)
  }

  lemma TotalSizeNext(orders: seq<Order>, o: Order)
    ensures TotalSize(orders + [o]) == TotalSize(orders) + OrderSize(o)
  {
    assert (orders + [o])[..|orders|] == orders;
  }

  lemma WriteKeepsAccounts(hash: Key -> nat, s: State, o: Order)
    requires Accounts(s)
    ensures Accounts(Apply(hash, s, Write(o)))
  {
    TotalSizeNext(s.Buffer(s.live), o);
  }

  lemma StepKeepsAccounts(hash: Key -> nat, s: State, step: Step)
    requires Accounts(s) && Enabled(s, step)
    ensures Accounts(Apply(hash, s, step))
  {
    if step.Write? {
      WriteKeepsAccounts(hash, s, step.order);
    }
  }

  lemma {:induction false} RunAccounts(hash: Key -> nat, keys: set<Key>, states: seq<State>, steps: seq<Step>, i: nat)
    requires IsRun(hash, keys, states, steps) && i < |states|
    ensures Accounts(states[i])
    decreases i
  {
    if i > 0 {
      RunAccounts(hash, keys, states, steps, i - 1);
      assert Moved(hash, keys, states[i - 1], steps[i - 1], states[i]);
      StepKeepsAccounts(hash, states[i - 1], steps[i - 1]);
    }
  }

  /** Orders with nonempty keys count for something. */
  lemma {:induction false} SizeGrows(orders: seq<Order>)
    requires orders != [] && orders[|orders| - 1].key != []
    ensures TotalSize(orders) > 0
  {}

  // ----- Continuations -----

  /** A step of the flush, or of a reader that is in the copy buffer already. */
  predicate Draining(step: Step, inside: set<nat>)
  {
    match step
    case Swap => true
    case FlushData => true
    case IndexOne(_) => true
    case IndexDone => true
    case LockCopy => true
    case Clear => true
    case PickCopy(r) => r in inside
    case ScanCopy(r) => r in inside
    case Unregister(r) => r in inside
    case _ => false
  }

  /** States that follow each other by such steps. */
  ghost predicate Drains(hash: Key -> nat, inside: set<nat>, states: seq<State>, steps: seq<Step>)
  {
    && |states| == |steps| + 1
    && forall i :: 0 <= i < |steps| ==> DrainsAt(hash, inside, states[i], steps[i], states[i + 1])
  }

  ghost predicate DrainsAt(hash: Key -> nat, inside: set<nat>, s: State, step: Step, s': State)
  {
    Draining(step, inside) && Enabled(s, step) && s' == Apply(hash, s, step)
  }

  /** One state leads to another. */
  ghost predicate Leads(hash: Key -> nat, inside: set<nat>, s: State, t: State)
  {
    exists states, steps :: IsWay(hash, inside, s, t, states, steps)
  }

  ghost predicate IsWay(hash: Key -> nat, inside: set<nat>, s: State, t: State, states: seq<State>, steps: seq<Step>)
  {
    Drains(hash, inside, states, steps) && states[0] == s && states[|steps|] == t
  }

  lemma LeadsNowhere(hash: Key -> nat, inside: set<nat>, s: State)
    ensures Leads(hash, inside, s, s)
  {
    assert IsWay(hash, inside, s, s, [s], []);
  }

  lemma LeadsByStep(hash: Key -> nat, inside: set<nat>, s: State, step: Step)
    requires Draining(step, inside) && Enabled(s, step)
    ensures Leads(hash, inside, s, Apply(hash, s, step))
  {
    assert IsWay(hash, inside, s, Apply(hash, s, step), [s, Apply(hash, s, step)], [step]);
  }

  lemma WaysJoin(hash: Key -> nat, inside: set<nat>, states1: seq<State>, steps1: seq<Step>, states2: seq<State>,
                 steps2: seq<Step>)
    requires Drains(hash, inside, states1, steps1) && Drains(hash, inside, states2, steps2)
    requires states1[|steps1|] == states2[0]
    ensures Drains(hash, inside, states1 + states2[1..], steps1 + steps2)
  {
    var states, steps := states1 + states2[1..], steps1 + steps2;
    forall i | 0 <= i < |steps|
      ensures DrainsAt(hash, inside, states[i], steps[i], states[i + 1])
    {
      if i < |steps1| {
        assert DrainsAt(hash, inside, states1[i], steps1[i], states1[i + 1]);
      } else {
        var j := i - |steps1|;
        assert DrainsAt(hash, inside, states2[j], steps2[j], states2[j + 1]);
        assert states[i] == states2[j] && states[i + 1] == states2[j + 1];
      }
    }
  }

  lemma LeadsOn(hash: Key -> nat, inside: set<nat>, s: State, t: State, u: State)
    requires Leads(hash, inside, s, t) && Leads(hash, inside, t, u)
    ensures Leads(hash, inside, s, u)
  {
    var states1, steps1 :| IsWay(hash, inside, s, t, states1, steps1);
    var states2, steps2 :| IsWay(hash, inside, t, u, states2, steps2);
    WaysJoin(hash, inside, states1, steps1, states2, steps2);
    assert IsWay(hash, inside, s, u, states1 + states2[1..], steps1 + steps2);
  }

  /** One step further. */
  lemma StepOn(hash: Key -> nat, keys: set<Key>, inside: set<nat>, s: State, t: State, step: Step)
    requires Leads(hash, inside, s, t) && Draining(step, inside) && Enabled(t, step)
    requires Inv(hash, keys, t) && Distinct(hash, keys)
    ensures Leads(hash, inside, s, Apply(hash, t, step)) && Inv(hash, keys, Apply(hash, t, step))
  {
    LeadsByStep(hash, inside, t, step);
    LeadsOn(hash, inside, s, t, Apply(hash, t, step));
    StepKeepsInv(hash, keys, t, step);
  }

  // ----- Readers leave the copy buffer -----

  /** Only readers have moved, and none has come in. */
  ghost predicate ReadersOnly(s: State, t: State)
  {
    t == s.(readers := t.readers, numReaders := t.numReaders) && Inside(t.readers) <= Inside(s.readers)
  }

  lemma ReaderStays(s: State, t: State, r: nat)
    requires r in s.readers && InCopy(s.readers[r]) && r in t.readers && InCopy(t.readers[r])
    requires t.readers == s.readers[r := t.readers[r]]
    ensures Inside(t.readers) == Inside(s.readers)
  {}

  lemma ReaderLeaves(s: State, t: State, r: nat)
    requires r in s.readers && r in t.readers && !InCopy(t.readers[r]) && t.readers == s.readers[r := t.readers[r]]
    ensures Inside(t.readers) == Inside(s.readers) - {r}
  {}

  /** A reader that has scanned the buffer leaves it. */
  lemma LeaveScanned(hash: Key -> nat, keys: set<Key>, inside: set<nat>, s: State, r: nat) returns (t: State)
    requires Inv(hash, keys, s) && Distinct(hash, keys) && r in s.readers && s.readers[r].Scanned? && r in inside
    ensures Leads(hash, inside, s, t) && Inv(hash, keys, t) && ReadersOnly(s, t)
    ensures Inside(t.readers) == Inside(s.readers) - {r}
  {
    assert r in Inside(s.readers);
    t := Apply(hash, s, Unregister(r));
    ReaderLeaves(s, t, r);
    LeadsNowhere(hash, inside, s);
    StepOn(hash, keys, inside, s, s, Unregister(r));
  }

  lemma LeavePicked(hash: Key -> nat, keys: set<Key>, inside: set<nat>, s: State, r: nat) returns (t: State)
    requires Inv(hash, keys, s) && Distinct(hash, keys) && r in s.readers && s.readers[r].Picked? && r in inside
    ensures Leads(hash, inside, s, t) && Inv(hash, keys, t) && ReadersOnly(s, t)
    ensures Inside(t.readers) == Inside(s.readers) - {r}
  {
    var s1 := Apply(hash, s, ScanCopy(r));
    ReaderStays(s, s1, r);
    LeadsNowhere(hash, inside, s);
    StepOn(hash, keys, inside, s, s, ScanCopy(r));
    t := LeaveScanned(hash, keys, inside, s1, r);
    LeadsOn(hash, inside, s, s1, t);
  }

  lemma LeaveRegistered(hash: Key -> nat, keys: set<Key>, inside: set<nat>, s: State, r: nat) returns (t: State)
    requires Inv(hash, keys, s) && Distinct(hash, keys) && r in s.readers && s.readers[r].Registered? && r in inside
    ensures Leads(hash, inside, s, t) && Inv(hash, keys, t) && ReadersOnly(s, t)
    ensures Inside(t.readers) == Inside(s.readers) - {r}
  {
    var s1 := Apply(hash, s, PickCopy(r));
    ReaderStays(s, s1, r);
    LeadsNowhere(hash, inside, s);
    StepOn(hash, keys, inside, s, s, PickCopy(r));
    t := LeavePicked(hash, keys, inside, s1, r);
    LeadsOn(hash, inside, s, s1, t);
  }

  lemma ReaderOut(hash: Key -> nat, keys: set<Key>, inside: set<nat>, s: State, r: nat) returns (t: State)
    requires Inv(hash, keys, s) && Distinct(hash, keys) && r in Inside(s.readers) && r in inside
    ensures Leads(hash, inside, s, t) && Inv(hash, keys, t) && ReadersOnly(s, t)
    ensures Inside(t.readers) == Inside(s.readers) - {r}
  {
    if s.readers[r].Registered? {
      t := LeaveRegistered(hash, keys, inside, s, r);
    } else if s.readers[r].Picked? {
      t := LeavePicked(hash, keys, inside, s, r);
    } else {
      t := LeaveScanned(hash, keys, inside, s, r);
    }
  }

  /** All readers leave. */
  lemma {:induction false} ReadersLeave(hash: Key -> nat, keys: set<Key>, inside: set<nat>, s: State)
    returns (t: State)
    requires Inv(hash, keys, s) && Distinct(hash, keys) && Inside(s.readers) <= inside
    ensures Leads(hash, inside, s, t) && Inv(hash, keys, t) && ReadersOnly(s, t) && t.numReaders == 0
    decreases |Inside(s.readers)|
  {
    if Inside(s.readers) == {} {
      t := s;
      LeadsNowhere(hash, inside, s);
    } else {
      var r :| r in Inside(s.readers);
      var s1 := ReaderOut(hash, keys, inside, s, r);
      t := ReadersLeave(hash, keys, inside, s1);
      LeadsOn(hash, inside, s, s1, t);
    }
  }

  // ----- Pending locations enter the index -----

  /** Only the index has moved. */
  ghost predicate IndexOnly(s: State, t: State)
  {
    t == s.(index := t.index, pending := t.pending)
  }

  ghost function PendingHashes(pending: Index<Location>): set<nat>
  {
    set h | h in pending && pending[h] != []
  }

  lemma OneEnters(hash: Key -> nat, keys: set<Key>, inside: set<nat>, s: State, h: nat) returns (t: State)
    requires Inv(hash, keys, s) && Distinct(hash, keys) && s.phase.Flushed? && h in s.pending && s.pending[h] != []
    ensures Leads(hash, inside, s, t) && Inv(hash, keys, t) && IndexOnly(s, t)
    ensures t.pending == s.pending[h := s.pending[h][1..]]
  {
    LeadsNowhere(hash, inside, s);
    t := Apply(hash, s, IndexOne(h));
    StepOn(hash, keys, inside, s, s, IndexOne(h));
  }

  /** The locations of one bucket. */
  lemma {:induction false} BucketEnters(hash: Key -> nat, keys: set<Key>, inside: set<nat>, s: State, h: nat)
    returns (t: State)
    requires Inv(hash, keys, s) && Distinct(hash, keys) && s.phase.Flushed? && h in s.pending
    ensures Leads(hash, inside, s, t) && Inv(hash, keys, t) && IndexOnly(s, t) && t.pending == s.pending[h := []]
    decreases |s.pending[h]|
  {
    if s.pending[h] == [] {
      t := s;
      LeadsNowhere(hash, inside, s);
    } else {
      var s1 := OneEnters(hash, keys, inside, s, h);
      t := BucketEnters(hash, keys, inside, s1, h);
      LeadsOn(hash, inside, s, s1, t);
    }
  }

  /** All of them. */
  lemma {:induction false} AllEnter(hash: Key -> nat, keys: set<Key>, inside: set<nat>, s: State) returns (t: State)
    requires Inv(hash, keys, s) && Distinct(hash, keys) && s.phase.Flushed?
    ensures Leads(hash, inside, s, t) && Inv(hash, keys, t) && IndexOnly(s, t) && Enabled(t, IndexDone)
    decreases |PendingHashes(s.pending)|
  {
    if PendingHashes(s.pending) == {} {
      t := s;
      LeadsNowhere(hash, inside, s);
      assert forall h :: h in s.pending && s.pending[h] != [] ==> h in PendingHashes(s.pending);
    } else {
      var h :| h in PendingHashes(s.pending);
      var s1 := BucketEnters(hash, keys, inside, s, h);
      assert PendingHashes(s1.pending) == PendingHashes(s.pending) - {h};
      t := AllEnter(hash, keys, inside, s1);
      LeadsOn(hash, inside, s, s1, t);
    }
  }

  // ----- Flushes -----

  /** A flush has ended: the live buffer is as it was, and no reader has come in. */
  ghost predicate Ended(s: State, t: State)
  {
    && t.phase.Idle? && t.live == s.live && t.Buffer(t.live) == s.Buffer(s.live) && t.Size(t.live) == s.Size(s.live)
    && t.history == s.history && Inside(t.readers) <= Inside(s.readers)
  }

  /** From where the copy buffer is to be cleared. */
  lemma EndFromClearing(hash: Key -> nat, keys: set<Key>, inside: set<nat>, s: State) returns (t: State)
    requires Inv(hash, keys, s) && Distinct(hash, keys) && Inside(s.readers) <= inside && s.phase.Clearing?
    ensures Leads(hash, inside, s, t) && Inv(hash, keys, t) && Ended(s, t)
  {
    var s1 := ReadersLeave(hash, keys, inside, s);
    t := Apply(hash, s1, Clear);
    StepOn(hash, keys, inside, s, s1, Clear);
  }

  lemma EndFromIndexed(hash: Key -> nat, keys: set<Key>, inside: set<nat>, s: State) returns (t: State)
    requires Inv(hash, keys, s) && Distinct(hash, keys) && Inside(s.readers) <= inside && s.phase.Indexed?
    ensures Leads(hash, inside, s, t) && Inv(hash, keys, t) && Ended(s, t)
  {
    var s1 := Apply(hash, s, LockCopy);
    LeadsNowhere(hash, inside, s);
    StepOn(hash, keys, inside, s, s, LockCopy);
    t := EndFromClearing(hash, keys, inside, s1);
    LeadsOn(hash, inside, s, s1, t);
  }

  lemma EndFromFlushed(hash: Key -> nat, keys: set<Key>, inside: set<nat>, s: State) returns (t: State)
    requires Inv(hash, keys, s) && Distinct(hash, keys) && Inside(s.readers) <= inside && s.phase.Flushed?
    ensures Leads(hash, inside, s, t) && Inv(hash, keys, t) && Ended(s, t)
  {
    var s1 := AllEnter(hash, keys, inside, s);
    var s2 := Apply(hash, s1, IndexDone);
    StepOn(hash, keys, inside, s, s1, IndexDone);
    t := EndFromIndexed(hash, keys, inside, s2);
    LeadsOn(hash, inside, s, s2, t);
  }

  lemma EndFromSwapped(hash: Key -> nat, keys: set<Key>, inside: set<nat>, s: State) returns (t: State)
    requires Inv(hash, keys, s) && Distinct(hash, keys) && Inside(s.readers) <= inside && s.phase.Swapped?
    ensures Leads(hash, inside, s, t) && Inv(hash, keys, t) && Ended(s, t)
  {
    var s1 := Apply(hash, s, FlushData);
    LeadsNowhere(hash, inside, s);
    StepOn(hash, keys, inside, s, s, FlushData);
    t := EndFromFlushed(hash, keys, inside, s1);
    LeadsOn(hash, inside, s, s1, t);
  }

  /** A flush that is under way can end. */
  lemma FlushEnds(hash: Key -> nat, keys: set<Key>, inside: set<nat>, s: State) returns (t: State)
    requires Inv(hash, keys, s) && Distinct(hash, keys) && Inside(s.readers) <= inside
    ensures Leads(hash, inside, s, t) && Inv(hash, keys, t) && Ended(s, t)
  {
    match s.phase
    case Idle =>
      t := s;
      LeadsNowhere(hash, inside, s);
    case Swapped => t := EndFromSwapped(hash, keys, inside, s);
    case Flushed => t := EndFromFlushed(hash, keys, inside, s);
    case Indexed => t := EndFromIndexed(hash, keys, inside, s);
    case Clearing => t := EndFromClearing(hash, keys, inside, s);
  }

  /** Everything written is in the log and the index, and nothing in the buffers. */
  ghost predicate Drained(s: State)
  {
    && s.phase.Idle? && s.buffer0 == [] && s.buffer1 == [] && s.log == s.history
    && forall h :: Bucket(s.pending, h) == []
  }

  /** The live buffer is empty, or it counts for something. */
  predicate Flushable(s: State)
  {
    s.Buffer(s.live) == [] || s.Size(s.live) > 0
  }

  lemma IdleIsDrained(hash: Key -> nat, keys: set<Key>, s: State)
    requires Inv(hash, keys, s) && s.phase.Idle? && s.Buffer(s.live) == []
    ensures Drained(s)
  {
    assert s.history[..|s.history|] == s.history;
  }

  lemma SwapEmpties(hash: Key -> nat, keys: set<Key>, s: State)
    requires Inv(hash, keys, s) && Enabled(s, Swap)
    ensures var t := Apply(hash, s, Swap);
            t.Buffer(t.live) == [] && t.history == s.history && t.readers == s.readers
  {}

  /** What is in the buffers can be flushed. */
  lemma FlushCompletes(hash: Key -> nat, keys: set<Key>, inside: set<nat>, s: State) returns (t: State)
    requires Inv(hash, keys, s) && Distinct(hash, keys) && Inside(s.readers) <= inside && Flushable(s)
    ensures Leads(hash, inside, s, t) && Inv(hash, keys, t) && Drained(t) && t.history == s.history
  {
    t := FlushEnds(hash, keys, inside, s);
    if t.Buffer(t.live) != [] {
      var s1, s2 := t, Apply(hash, t, Swap);
      SwapEmpties(hash, keys, s1);
      StepOn(hash, keys, inside, s, s1, Swap);
      t := FlushEnds(hash, keys, inside, s2);
      LeadsOn(hash, inside, s, s2, t);
    }
    IdleIsDrained(hash, keys, t);
  }

  // ----- Whole runs -----

  /** A run goes on as another, by steps of the flush and of readers that are in the copy buffer. */
  ghost predicate GoesOn(hash: Key -> nat, keys: set<Key>, states: seq<State>, steps: seq<Step>, states': seq<State>,
                         steps': seq<Step>)
  {
    && IsRun(hash, keys, states, steps) && IsRun(hash, keys, states', steps') && states <= states' && steps <= steps'
    && forall i :: |steps| <= i < |steps'| ==> Draining(steps'[i], Inside(states[|steps|].readers))
  }

  lemma RunGoesOn(hash: Key -> nat, keys: set<Key>, states: seq<State>, steps: seq<Step>, states2: seq<State>,
                  steps2: seq<Step>)
    requires IsRun(hash, keys, states, steps) && states2 != [] && states[|steps|] == states2[0]
    requires Drains(hash, Inside(states[|steps|].readers), states2, steps2)
    ensures GoesOn(hash, keys, states, steps, states + states2[1..], steps + steps2)
  {
    var inside := Inside(states[|steps|].readers);
    var all, done := states + states2[1..], steps + steps2;
    forall i | 0 <= i < |done|
      ensures Moved(hash, keys, all[i], done[i], all[i + 1])
      ensures i >= |steps| ==> Draining(done[i], inside)
    {
      if i < |steps| {
        assert Moved(hash, keys, states[i], steps[i], states[i + 1]);
      } else {
        var j := i - |steps|;
        assert DrainsAt(hash, inside, states2[j], steps2[j], states2[j + 1]);
        assert all[i] == states2[j] && all[i + 1] == states2[j + 1];
      }
    }
  }

  /**
   * Progress: every run whose live buffer counts for something, or is empty, goes on, without writes, to a state in
   * which the log holds all that was written, the index lists all of it, and the buffers are empty.
   */
  lemma RunDrains(hash: Key -> nat, keys: set<Key>, states: seq<State>, steps: seq<Step>)
    returns (states': seq<State>, steps': seq<Step>)
    requires Distinct(hash, keys) && IsRun(hash, keys, states, steps) && Flushable(states[|steps|])
    ensures GoesOn(hash, keys, states, steps, states', steps')
    ensures Drained(states'[|steps'|]) && states'[|steps'|].history == states[|steps|].history
  {
    var s := states[|steps|];
    RunKeepsInv(hash, keys, states, steps, |steps|);
    var t := FlushCompletes(hash, keys, Inside(s.readers), s);
    var states2, steps2 :| IsWay(hash, Inside(s.readers), s, t, states2, steps2);
    RunGoesOn(hash, keys, states, steps, states2, steps2);
    states', steps' := states + states2[1..], steps + steps2;
  }

  lemma StuckStays(hash: Key -> nat, s: State, step: Step)
    requires Accounts(s) && Enabled(s, step) && !step.Write? && Flushable(Apply(hash, s, step))
    ensures Flushable(s)
  {}

  /** Only those: what does not count for anything stays in the live buffer until something else is written. */
  lemma {:induction false} DrainsOnlyIf(hash: Key -> nat, keys: set<Key>, states: seq<State>, steps: seq<Step>, i: nat,
                                        j: nat)
    requires IsRun(hash, keys, states, steps) && i <= j < |states| && Flushable(states[j])
    requires forall k :: i <= k < j ==> !steps[k].Write?
    ensures Flushable(states[i])
    decreases j - i
  {
    if i < j {
      DrainsOnlyIf(hash, keys, states, steps, i + 1, j);
      RunAccounts(hash, keys, states, steps, i);
      assert Moved(hash, keys, states[i], steps[i], states[i + 1]);
      StuckStays(hash, states[i], steps[i]);
    }
  }

  /** With nonempty keys every state is such. */
  lemma RunFlushable(hash: Key -> nat, keys: set<Key>, states: seq<State>, steps: seq<Step>, i: nat)
    requires Distinct(hash, keys) && IsRun(hash, keys, states, steps) && i < |states|
    requires forall key :: key in keys ==> key != []
    ensures Flushable(states[i])
  {
    var s := states[i];
    RunKeepsInv(hash, keys, states, steps, i);
    RunAccounts(hash, keys, states, steps, i);
    var live := s.Buffer(s.live);
    if live != [] {
      assert s.history[LiveStart(s)..][|live| - 1] == s.history[|s.history| - 1];
      SizeGrows(live);
    }
  }

  // ----- Gets that the copy buffer and storage answer -----

  lemma Append(hash: Key -> nat, keys: set<Key>, states: seq<State>, steps: seq<Step>, step: Step)
    returns (all: seq<State>, done: seq<Step>)
    requires IsRun(hash, keys, states, steps) && StepIn(keys, step) && Enabled(states[|steps|], step)
    ensures all == states + [Apply(hash, states[|steps|], step)] && done == steps + [step]
    ensures IsRun(hash, keys, all, done) && all[|done|] == Apply(hash, states[|steps|], step)
  {
    all, done := states + [Apply(hash, states[|steps|], step)], steps + [step];
    forall i | 0 <= i < |done|
      ensures Moved(hash, keys, all[i], done[i], all[i + 1])
    {
      if i < |steps| {
        assert Moved(hash, keys, states[i], steps[i], states[i + 1]);
      }
    }
  }

  /** A Get that finds nothing in the live buffer registers with the copy buffer. */
  lemma MissInLive(hash: Key -> nat, keys: set<Key>, states: seq<State>, steps: seq<Step>, r: nat, key: Key)
    returns (states': seq<State>, steps': seq<Step>)
    requires IsRun(hash, keys, states, steps) && key in keys && r !in states[|steps|].readers
    requires !states[|steps|].copyLocked && Found(states[|steps|].Buffer(states[|steps|].live), key) == None
    ensures states <= states' && IsRun(hash, keys, states', steps') && steps' == steps + [LiveScan(r, key), Register(r)]
    ensures var s := states[|steps|];
            states'[|steps'|] == s.(readers := s.readers[r := Registered(key, |s.history|)],
                                    numReaders := s.numReaders + 1)
  {
    states', steps' := Append(hash, keys, states, steps, LiveScan(r, key));
    states', steps' := Append(hash, keys, states', steps', Register(r));
  }

  /** A reader has moved; nothing else has. */
  ghost predicate ReaderIs(s: State, t: State, r: nat, g: Reader, numReaders: nat)
  {
    t == s.(readers := s.readers[r := g], numReaders := numReaders)
  }

  lemma ScanSteps(hash: Key -> nat, s: State, r: nat, key: Key, begun: nat, s1: State, s2: State)
    requires r in s.readers && s.readers[r] == Registered(key, begun) && s.numReaders > 0
    requires ReaderIs(s, s1, r, Picked(key, begun, s.copy), s.numReaders)
    requires ReaderIs(s, s2, r, Scanned(key, begun, Found(s.Buffer(s.copy), key)), s.numReaders)
    ensures Enabled(s, PickCopy(r)) && Apply(hash, s, PickCopy(r)) == s1
    ensures Enabled(s1, ScanCopy(r)) && Apply(hash, s1, ScanCopy(r)) == s2
  {
    assert s1.readers[r := s2.readers[r]] == s2.readers;
  }

  /** What a reader is after it has left the copy buffer. */
  function Left(s: State, key: Key, begun: nat): Reader
  {
    var found := Found(s.Buffer(s.copy), key);
    if found.Some? then Done(key, begun, found.value) else CopyMissed(key, begun)
  }

  lemma LeaveStep(hash: Key -> nat, s: State, r: nat, key: Key, begun: nat, s2: State)
    requires r in s.readers && s.numReaders > 0
    requires ReaderIs(s, s2, r, Scanned(key, begun, Found(s.Buffer(s.copy), key)), s.numReaders)
    ensures Enabled(s2, Unregister(r))
    ensures ReaderIs(s, Apply(hash, s2, Unregister(r)), r, Left(s, key, begun), s.numReaders - 1)
  {
    assert s2.readers[r := Left(s, key, begun)] == s.readers[r := Left(s, key, begun)];
  }

  /** It scans the copy buffer and leaves it. */
  lemma ScanAndLeave(hash: Key -> nat, keys: set<Key>, states: seq<State>, steps: seq<Step>, r: nat, key: Key,
                     begun: nat) returns (states': seq<State>, steps': seq<Step>)
    requires IsRun(hash, keys, states, steps) && states[|steps|].numReaders > 0
    requires r in states[|steps|].readers && states[|steps|].readers[r] == Registered(key, begun)
    ensures states <= states' && IsRun(hash, keys, states', steps')
    ensures steps' == steps + [PickCopy(r), ScanCopy(r), Unregister(r)]
    ensures var s := states[|steps|];
            ReaderIs(s, states'[|steps'|], r, Left(s, key, begun), s.numReaders - 1)
  {
    var s := states[|steps|];
    var s1 := s.(readers := s.readers[r := Picked(key, begun, s.copy)]);
    var s2 := s.(readers := s.readers[r := Scanned(key, begun, Found(s.Buffer(s.copy), key))]);
    ScanSteps(hash, s, r, key, begun, s1, s2);
    LeaveStep(hash, s, r, key, begun, s2);
    states', steps' := Append(hash, keys, states, steps, PickCopy(r));
    states', steps' := Append(hash, keys, states', steps', ScanCopy(r));
    states', steps' := Append(hash, keys, states', steps', Unregister(r));
  }

  /** In a drained state storage answers as the logical map does. */
  lemma DrainedAnswers(hash: Key -> nat, keys: set<Key>, s: State, key: Key)
    requires Inv(hash, keys, s) && Distinct(hash, keys) && key in keys && Drained(s)
    ensures Answer(StorageGet(hash, s.index, s.log, key)) == Lookup(s.history, key)
  {
    StorageAnswers(hash, keys, s, key, |s.history|);
    assert s.history[..|s.history|] == s.history;
  }

  /** A Get that finds nothing in either buffer. */
  lemma MissInBoth(hash: Key -> nat, keys: set<Key>, states: seq<State>, steps: seq<Step>, r: nat, key: Key)
    returns (states': seq<State>, steps': seq<Step>)
    requires IsRun(hash, keys, states, steps) && key in keys && r !in states[|steps|].readers
    requires !states[|steps|].copyLocked && Found(states[|steps|].Buffer(states[|steps|].live), key) == None
    requires Found(states[|steps|].Buffer(states[|steps|].copy), key) == None
    ensures states <= states' && IsRun(hash, keys, states', steps')
    ensures steps' == steps + [LiveScan(r, key), Register(r)] + [PickCopy(r), ScanCopy(r), Unregister(r)]
    ensures var s := states[|steps|];
            ReaderIs(s, states'[|steps'|], r, CopyMissed(key, |s.history|), s.numReaders)
  {
    var s := states[|steps|];
    states', steps' := MissInLive(hash, keys, states, steps, r, key);
    var t := states'[|steps'|];
    states', steps' := ScanAndLeave(hash, keys, states', steps', r, key, |s.history|);
    assert t.readers[r := CopyMissed(key, |s.history|)] == s.readers[r := CopyMissed(key, |s.history|)];
  }

  lemma ReadStep(hash: Key -> nat, s: State, t: State, r: nat, key: Key, begun: nat)
    requires ReaderIs(s, t, r, CopyMissed(key, begun), s.numReaders)
    ensures Enabled(t, ReadStorage(r))
    ensures var u := Apply(hash, t, ReadStorage(r));
            r in u.readers && u.readers[r] == Done(key, begun, StorageGet(hash, s.index, s.log, key))
  {}

  lemma DrainedRunAnswers(hash: Key -> nat, keys: set<Key>, states: seq<State>, steps: seq<Step>, key: Key)
    requires Distinct(hash, keys) && IsRun(hash, keys, states, steps) && key in keys && Drained(states[|steps|])
    ensures var s := states[|steps|];
            && !s.copyLocked && Found(s.Buffer(s.live), key) == None && Found(s.Buffer(s.copy), key) == None
            && Answer(StorageGet(hash, s.index, s.log, key)) == Lookup(s.history, key)
  {
    RunKeepsInv(hash, keys, states, steps, |steps|);
    RunAccounts(hash, keys, states, steps, |steps|);
    DrainedAnswers(hash, keys, states[|steps|], key);
  }

  /** A Get in a drained state misses in both buffers, and storage gives it the answer of the logical map. */
  lemma GetFromStorage(hash: Key -> nat, keys: set<Key>, states: seq<State>, steps: seq<Step>, r: nat, key: Key)
    returns (states': seq<State>, steps': seq<Step>)
    requires Distinct(hash, keys) && IsRun(hash, keys, states, steps) && key in keys && r !in states[|steps|].readers
    requires Drained(states[|steps|])
    ensures states <= states' && IsRun(hash, keys, states', steps')
    ensures steps' == steps + [LiveScan(r, key), Register(r)] + [PickCopy(r), ScanCopy(r), Unregister(r)]
                      + [ReadStorage(r)]
    ensures IsGet(states', steps', r, key, |steps|, |steps'|)
    ensures Answer(states'[|steps'|].readers[r].status) == Lookup(states[|steps|].history, key)
  {
    var s := states[|steps|];
    DrainedRunAnswers(hash, keys, states, steps, key);
    states', steps' := MissInBoth(hash, keys, states, steps, r, key);
    ReadStep(hash, s, states'[|steps'|], r, key, |s.history|);
    states', steps' := Append(hash, keys, states', steps', ReadStorage(r));
  }

  /**
   * What is written is stored: every run with nonempty keys goes on, without writes, to a state from which every new
   * Get is answered by storage, as the logical map answers.
   */
  lemma WrittenIsStored(hash: Key -> nat, keys: set<Key>, states: seq<State>, steps: seq<Step>, r: nat, key: Key)
    returns (drained: seq<State>, draining: seq<Step>, states': seq<State>, steps': seq<Step>)
    requires Distinct(hash, keys) && IsRun(hash, keys, states, steps) && key in keys
    requires (forall k :: k in keys ==> k != []) && r !in states[|steps|].readers
    ensures GoesOn(hash, keys, states, steps, drained, draining) && IsRun(hash, keys, states', steps')
    ensures steps' == draining + [LiveScan(r, key), Register(r)] + [PickCopy(r), ScanCopy(r), Unregister(r)]
                      + [ReadStorage(r)]
    ensures IsGet(states', steps', r, key, |draining|, |steps'|)
    ensures Answer(states'[|steps'|].readers[r].status) == Lookup(states[|steps|].history, key)
  {
    RunFlushable(hash, keys, states, steps, |steps|);
    drained, draining := RunDrains(hash, keys, states, steps);
    NoNewReader(hash, keys, states, steps, drained, draining, r, |draining|);
    states', steps' := GetFromStorage(hash, keys, drained, draining, r, key);
  }

  lemma {:induction false} NoNewReader(hash: Key -> nat, keys: set<Key>, states: seq<State>, steps: seq<Step>,
                                       states': seq<State>, steps': seq<Step>, r: nat, i: nat)
    requires GoesOn(hash, keys, states, steps, states', steps') && r !in states[|steps|].readers
    requires |steps| <= i <= |steps'|
    ensures r !in states'[i].readers
    decreases i
  {
    if i > |steps| {
      NoNewReader(hash, keys, states, steps, states', steps', r, i - 1);
      assert Moved(hash, keys, states'[i - 1], steps'[i - 1], states'[i]);
      assert Draining(steps'[i - 1], Inside(states[|steps|].readers));
      DrainingKeepsReaders(hash, states'[i - 1], steps'[i - 1], Inside(states[|steps|].readers));
    }
  }

  lemma DrainingKeepsReaders(hash: Key -> nat, s: State, step: Step, inside: set<nat>)
    requires Enabled(s, step) && Draining(step, inside)
    ensures Apply(hash, s, step).readers.Keys == s.readers.Keys
  {}

  /** There are runs in which the copy buffer answers: a Get between the swap and the clearing. */
  lemma GetFromCopy(hash: Key -> nat, key: Key, value: Value) returns (states: seq<State>, steps: seq<Step>)
    requires |key| + |value| > 0
    ensures IsRun(hash, {key}, states, steps) && IsGet(states, steps, 0, key, 2, 7)
    ensures steps == [Write(Put(key, value)), Swap] + [LiveScan(0, key), Register(0)]
                     + [PickCopy(0), ScanCopy(0), Unregister(0)]
    ensures states[7].readers[0].status == OK(value)
  {
    var order := Put(key, value);
    states, steps := [INIT], [];
    states, steps := Append(hash, {key}, states, steps, Write(order));
    states, steps := Append(hash, {key}, states, steps, Swap);
    LastOrderIs([order], key, 0);
    states, steps := MissInLive(hash, {key}, states, steps, 0, key);
    states, steps := ScanAndLeave(hash, {key}, states, steps, 0, key, 1);
  }
}
