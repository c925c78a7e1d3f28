/** The matcher as the trace callback drives it: each method is one step of a run. */
module StackStates {
  import opened Trace
  import opened Seqs
  import opened Stacks

  /** What a prune leaves in the queues. */
  lemma PruneCuts(st: State, latest: int, keep: int, switchKeep: int)
    ensures var next := Stacks.Prune(st, latest, keep, switchKeep);
      && IsCut(st.slowIo, next.slowIo, SlowEnd, latest - keep) && IsCut(st.faults, next.faults, FaultEnd, latest - keep)
      && IsCut(st.switchIns, next.switchIns, SwitchInTs, latest - switchKeep)
      && IsCut(st.readies, next.readies, ReadyStackTs, latest - switchKeep)
  {
    DropOlderCuts(st.slowIo, SlowEnd, latest - keep);
    DropOlderCuts(st.faults, FaultEnd, latest - keep);
    DropOlderCuts(st.switchIns, SwitchInTs, latest - switchKeep);
    DropOlderCuts(st.readies, ReadyStackTs, latest - switchKeep);
  }

  class StackState {
    const asked: set<Kind>
    const switchCap: nat
    const readyCap: nat
    var perCpu: seq<seq<Pending>>
    var ioInit: map<nat, (int, Option<Stack>)>
    var slowIo: seq<SlowIo>
    var faults: seq<FaultStack>
    var switchIns: seq<SwitchInStack>
    var readies: seq<ReadyStack>
    var offAt: map<nat, (int, int)>
    var lost: Lost
    var counts: Counts
    /** Everything that ever happened to this object. */
    ghost var run: seq<Event>

    function View(): State
      reads this
    {
      State(asked, switchCap, readyCap, perCpu, ioInit, slowIo, faults, switchIns, readies, offAt, lost, counts)
    }

    ghost predicate Valid()
      reads this
    {
      View() == Replay(run, asked, switchCap, readyCap)
    }

    constructor (asked: set<Kind>, switchCap: nat, readyCap: nat)
      ensures Valid() && run == []
      ensures this.asked == asked && this.switchCap == switchCap && this.readyCap == readyCap
    {
      this.asked, this.switchCap, this.readyCap := asked, switchCap, readyCap;
      perCpu, ioInit, slowIo, faults, switchIns, readies, offAt := [], map[], [], [], [], [], map[];
      lost, counts, run := Lost(None, None, None, None), NO_COUNTS, [];
    }

    /** Notes what just happened. */
    ghost method Happened(ev: Event)
      requires View() == Apply(Replay(run, asked, switchCap, readyCap), ev)
      modifies this`run
      ensures Valid() && run == old(run) + [ev]
    {
      run := run + [ev];
      assert run[..|run| - 1] == old(run);
    }

    method Pend(cpu: nat, p: Pending)
      modifies this`perCpu, this`counts
      ensures View() == Stacks.Pend(old(View()), cpu, p)
    {
      while |perCpu| <= cpu
        invariant Grow(perCpu, cpu + 1) == Grow(old(perCpu), cpu + 1)
        invariant SlotsOf(perCpu, cpu) == SlotsOf(old(perCpu), cpu)
        invariant counts == old(counts)
        decreases cpu + 1 - |perCpu|
      {
        perCpu := perCpu + [[]];
      }
      assert perCpu == Grow(old(perCpu), cpu + 1);
      var slots := perCpu[cpu] + [p];
      if |slots| > PENDING_PER_CPU {
        if !slots[0].want.Ignore? {
          counts := counts.(overwritten := counts.overwritten + 1);
        }
        slots := slots[1..];
      }
      perCpu := perCpu[cpu := slots];
    }

    /** Takes the pending event the stack belongs to, its own processor's slots searched first. */
    method Take(cpu: nat, ts: int, tid: nat) returns (p: Option<Pending>, elsewhere: bool)
      modifies this`perCpu
      ensures p.None? <==> forall c :: !HitOn(old(perCpu), c, ts, tid)
      ensures var at := Find(old(perCpu), cpu, ts, tid);
        if at.None? then p.None? && perCpu == old(perCpu)
        else
          && p == Some(old(perCpu)[at.value.0][at.value.1])
          && perCpu == TakeSlot(old(perCpu), at.value.0, at.value.1)
          && elsewhere == !OnOwnCpu(old(perCpu), cpu, ts, tid)
    {
      FindMeaning(perCpu, cpu, ts, tid);
      if cpu < |perCpu| {
        var i := HitAt(perCpu[cpu], ts, tid);
        if i < |perCpu[cpu]| {
          p, elsewhere := Some(perCpu[cpu][i]), false;
          perCpu := perCpu[cpu := Without(perCpu[cpu], i)];
          return;
        }
      }
      var c := 0;
      while c < |perCpu|
        invariant c <= |perCpu| && perCpu == old(perCpu)
        invariant CpuHit(perCpu, ts, tid) == c + CpuHit(perCpu[c..], ts, tid)
      {
        var i := HitAt(perCpu[c], ts, tid);
        if i < |perCpu[c]| {
          p, elsewhere := Some(perCpu[c][i]), true;
          perCpu := perCpu[c := Without(perCpu[c], i)];
          return;
        }
        assert perCpu[c..][1..] == perCpu[c + 1..];
        c := c + 1;
      }
      p, elsewhere := None, false;
    }

    method OnDiskInit(ts: int, cpu: nat, header: nat, irp: nat, issuer: nat)
      requires Valid()
      modifies this
      ensures Valid() && run == old(run) + [InitEvent(ts, cpu, header, irp, issuer)]
    {
      if DiskInit in asked {
        var want := Ignore;
        if irp == 0 {
        } else if |ioInit| >= IO_INIT_CAP && irp !in ioInit {
          counts := counts.(initDropped := counts.initDropped + 1);
        } else {
          ioInit := ioInit[irp := (ts, None)];
          want := ForDiskInit(irp);
        }
        Pend(cpu, Pending(ts, header, issuer, DiskInit, want));
      }
      Happened(InitEvent(ts, cpu, header, irp, issuer));
    }

    method OnDiskDone(end: int, irp: nat, slow: bool)
      requires Valid()
      modifies this
      ensures Valid() && run == old(run) + [DoneEvent(end, irp, slow)]
    {
      if DiskInit in asked && irp != 0 {
        var what := if irp !in ioInit then NoInit else if ioInit[irp].1.Some? then Found(ioInit[irp].1.value) else NoStack;
        ioInit := ioInit - {irp};
        counts := counts.(io := CountDone(counts.io, what, slow));
        if slow {
          var q, gone := PushCapped(slowIo, SlowIo(end, irp, what), SLOW_IO_CAP, SlowEnd, lost.slowIo);
          slowIo, lost := q, lost.(slowIo := gone);
        }
      }
      Happened(DoneEvent(end, irp, slow));
    }

    method OnFault(ts: int, cpu: nat, header: nat, start: int, tid: nat)
      requires Valid()
      modifies this
      ensures Valid() && run == old(run) + [FaultEvent(ts, cpu, header, start, tid)]
    {
      if HardFault in asked {
        var want := if ts - start >= KEEP_WAIT then ForFault(start, tid) else Ignore;
        Pend(cpu, Pending(ts, header, tid, HardFault, want));
      }
      Happened(FaultEvent(ts, cpu, header, start, tid));
    }

    method OnSwitch(cpu: nat, header: nat, sw: SwitchRec)
      requires Valid()
      modifies this
      ensures Valid() && run == old(run) + [SwitchEvent(cpu, header, sw)]
    {
      if CSwitch in asked || Readied in asked {
        var want := Ignore;
        if sw.newTid in offAt {
          var (since, reason) := offAt[sw.newTid];
          if sw.newTid != 0 && sw.ts - since >= KEEP_WAIT && Worth(reason) {
            want := ForSwitchIn(sw.newTid, since);
          }
        }
        offAt := offAt - {sw.newTid};
        if CSwitch in asked {
          Pend(cpu, Pending(sw.ts, header, sw.newTid, CSwitch, want));
        }
        if sw.oldState == STATE_WAITING && sw.oldTid != 0 {
          offAt := offAt[sw.oldTid := (sw.ts, sw.oldReason)];
        }
      }
      Happened(SwitchEvent(cpu, header, sw));
    }

    method OnReady(ts: int, cpu: nat, header: nat, tid: nat)
      requires Valid()
      modifies this
      ensures Valid() && run == old(run) + [ReadyEvent(ts, cpu, header, tid)]
    {
      if Readied in asked {
        var want := Ignore;
        if tid in offAt {
          var (since, reason) := offAt[tid];
          if ts - since >= KEEP_WAIT && Worth(reason) {
            want := ForReadied(tid, since);
          }
        }
        Pend(cpu, Pending(ts, header, tid, Readied, want));
      }
      Happened(ReadyEvent(ts, cpu, header, tid));
    }

    /** Gives a matched stack to what it was wanted for. */
    method KeepStack(p: Pending, raw: RawStack) returns (kept: bool)
      modifies this`ioInit, this`faults, this`switchIns, this`readies, this`lost
      ensures (View(), kept) == Keep(old(View()), p, raw)
    {
      kept := true;
      match p.want
      case Ignore => kept := false;
      case ForDiskInit(irp) =>
        if irp in ioInit && ioInit[irp].0 == p.ts {
          ioInit := ioInit[irp := (ioInit[irp].0, Some(FromRaw(raw)))];
        } else {
          kept := false;
        }
      case ForFault(start, tid) =>
        var q, gone := PushCapped(faults, FaultStack(start, p.ts, tid, FromRaw(raw)), FAULT_CAP, FaultEnd, lost.faults);
        faults, lost := q, lost.(faults := gone);
      case ForSwitchIn(tid, since) =>
        var q, gone := PushCapped(switchIns, SwitchInStack(p.ts, tid, since, FromRaw(raw)), switchCap, SwitchInTs, lost.switchIns);
        switchIns, lost := q, lost.(switchIns := gone);
      case ForReadied(tid, since) =>
        var q, gone := PushCapped(readies, ReadyStack(p.ts, tid, since, FromRaw(raw)), readyCap, ReadyStackTs, lost.readies);
        readies, lost := q, lost.(readies := gone);
    }

    method OnStack(cpu: nat, raw: RawStack)
      requires Valid()
      modifies this
      ensures Valid() && run == old(run) + [StackEvent(cpu, raw)]
    {
      var taken, elsewhere := Take(cpu, raw.ts, raw.tid);
      if taken.None? {
        counts := counts.(unmatched := counts.unmatched + 1);
      } else {
        var p := taken.value;
        var kept := KeepStack(p, raw);
        counts := CountMatched(counts, p.kind, raw.tid == p.header, elsewhere, kept);
      }
      Happened(StackEvent(cpu, raw));
    }

    /** The long rings. */
    method PruneDisk(cut: int)
      modifies this`slowIo, this`faults, this`ioInit
      ensures slowIo == DropOlder(old(slowIo), SlowEnd, cut)
      ensures faults == DropOlder(old(faults), FaultEnd, cut)
      ensures ioInit == Retain(old(ioInit), cut)
    {
      slowIo := PopOlder(slowIo, SlowEnd, cut);
      faults := PopOlder(faults, FaultEnd, cut);
      ioInit := Retain(ioInit, cut);
    }

    /** The short ones. */
    method PruneThreads(cut: int)
      modifies this`switchIns, this`readies, this`offAt
      ensures switchIns == DropOlder(old(switchIns), SwitchInTs, cut)
      ensures readies == DropOlder(old(readies), ReadyStackTs, cut)
      ensures offAt == Retain(old(offAt), cut)
    {
      switchIns := PopOlder(switchIns, SwitchInTs, cut);
      readies := PopOlder(readies, ReadyStackTs, cut);
      offAt := Retain(offAt, cut);
    }

    method PruneAll(latest: int, keep: int, switchKeep: int)
      modifies this`slowIo, this`faults, this`ioInit, this`switchIns, this`readies, this`offAt
      ensures View() == Stacks.Prune(old(View()), latest, keep, switchKeep)
    {
      PruneDisk(latest - keep);
      PruneThreads(latest - switchKeep);
    }

    method Prune(latest: int, keep: int, switchKeep: int)
      requires Valid()
      modifies this
      ensures Valid() && run == old(run) + [PruneEvent(latest, keep, switchKeep)]
      ensures IsCut(old(slowIo), slowIo, SlowEnd, latest - keep) && IsCut(old(faults), faults, FaultEnd, latest - keep)
      ensures IsCut(old(switchIns), switchIns, SwitchInTs, latest - switchKeep)
      ensures IsCut(old(readies), readies, ReadyStackTs, latest - switchKeep)
    {
      PruneCuts(View(), latest, keep, switchKeep);
      ghost var ev := PruneEvent(latest, keep, switchKeep);
      PruneAll(latest, keep, switchKeep);
      assert View() == Apply(old(View()), ev);
      Happened(ev);
    }
  }
}
