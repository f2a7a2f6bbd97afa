/** The tracer's table of traced processes, driven by wait statuses. */
module ProcessTable {

  import opened Flat

  /** A slot: the process, the flags the loop uses, and the pid whose log files it holds. */
  datatype Tcb = Tcb(pid: int, inUse: bool, startup: bool, ignoreOneSigstop: bool, textLog: int, dumpLog: int,
      stackLog: int)

  /** memset to zero. */
  const EMPTY := Tcb(0, false, false, false, 0, 0, 0)

  const SIGSTOP := 19
  const SIGTSTP := 20
  const SIGTTIN := 21
  const SIGTTOU := 22

  // ----- counting slots -----

  function InUse(slots: seq<Tcb>): nat {
    if slots == [] then 0 else InUse(slots[..|slots| - 1]) + if slots[|slots| - 1].inUse then 1 else 0
  }

  lemma {:induction false} InUseUpdate(slots: seq<Tcb>, i: nat, t: Tcb)
    requires i < |slots|
    ensures InUse(slots[i := t]) + (if slots[i].inUse then 1 else 0) == InUse(slots) + (if t.inUse then 1 else 0)
    decreases |slots|
  {
    var n := |slots| - 1;
    if i < n {
      InUseUpdate(slots[..n], i, t);
      assert slots[i := t][..n] == slots[..n][i := t];
    } else {
      assert slots[i := t][..n] == slots[..n];
    }
  }

  lemma {:induction false} InUseExtend(slots: seq<Tcb>, more: seq<Tcb>)
    requires forall i :: 0 <= i < |more| ==> !more[i].inUse
    ensures InUse(slots + more) == InUse(slots)
    decreases |more|
  {
    if more == [] {
      assert slots + more == slots;
    } else {
      var n := |more| - 1;
      InUseExtend(slots, more[..n]);
      assert (slots + more)[..|slots| + n] == slots + more[..n];
    }
  }

  lemma {:induction false} AllTaken(slots: seq<Tcb>)
    requires forall i :: 0 <= i < |slots| ==> slots[i].inUse
    ensures InUse(slots) == |slots|
    decreases |slots|
  {
    if slots == [] {
    } else {
      AllTaken(slots[..|slots| - 1]);
    }
  }

  // ----- the invariant -----

  predicate Sound(t: Tcb) {
    if t.inUse then t.pid > 0 && t.textLog == t.dumpLog == t.stackLog == t.pid else t == EMPTY
  }

  /** Sound slots with distinct pids. */
  ghost predicate Proper(slots: seq<Tcb>) {
    && |slots| > 0
    && (forall i :: 0 <= i < |slots| ==> Sound(slots[i]))
    && (forall i, j :: 0 <= i < j < |slots| && slots[i].inUse && slots[j].inUse ==> slots[i].pid != slots[j].pid)
  }

  predicate Tracked(slots: seq<Tcb>, pid: int) {
    exists i :: 0 <= i < |slots| && slots[i].inUse && slots[i].pid == pid
  }

  function Empties(n: nat): (r: seq<Tcb>)
    ensures |r| == n && forall i :: 0 <= i < n ==> r[i] == EMPTY
  {
    if n == 0 then [] else Empties(n - 1) + [EMPTY]
  }

  // ----- wait statuses -----

  datatype How = Signaled | Exited | Stopped(sig: nat) | Odd

  datatype PtraceEvent = NoEvent | ExecEvent | StopEvent | OtherEvent

  /** What wait4 and the two ptrace queries report: the old pid of an execve if the kernel knows
      it, and whether the signal information could be read. */
  datatype Status = Status(pid: int, how: How, event: PtraceEvent, oldPid: int, oldPidKnown: bool, hasSiginfo: bool)

  /** What the loop did with a status, slot by slot. */
  datatype Action =
    | Attached(slot: nat)
    | Dropped(slot: nat)
    | Swallowed(slot: nat)
    | Restarted(slot: nat, sig: nat)
    | Listening(slot: nat)

  predicate IsStopSignal(sig: nat) { sig in {SIGSTOP, SIGTSTP, SIGTTIN, SIGTTOU} }

  class TcbTable {
    var slots: seq<Tcb>
    var nprocs: nat
    /** post_attach_sigstop; PTRACE_SEIZE does without it. */
    const expectSigstop: bool
    const syscallTrap: nat

    ghost predicate Valid()
      reads this
    {
      Proper(slots) && nprocs == InUse(slots)
    }

    constructor (size: nat, expectSigstop: bool, syscallTrap: nat)
      requires size > 0
      ensures Valid() && slots == Empties(size) && nprocs == 0
      ensures this.expectSigstop == expectSigstop && this.syscallTrap == syscallTrap
    {
      slots, nprocs := Empties(size), 0;
      this.expectSigstop, this.syscallTrap := expectSigstop, syscallTrap;
      new;
      InUseExtend([], slots);
      assert [] + slots == slots;
    }

    /** expand_tcbtab: twice the slots, the old ones stay where they are. */
    method Expand()
      requires Valid()
      modifies this`slots
      ensures Valid() && slots == old(slots) + Empties(|old(slots)|)
    {
      InUseExtend(slots, Empties(|slots|));
      slots := slots + Empties(|slots|);
    }

    method Pid2Tcb(pid: int) returns (found: int)
      requires Valid()
      ensures found == -1 || (0 <= found < |slots| && slots[found].inUse && slots[found].pid == pid && pid > 0)
      ensures found == -1 <==> !Tracked(slots, pid)
    {
      if pid <= 0 {
        return -1;
      }
      for i := 0 to |slots|
        invariant forall k :: 0 <= k < i ==> !(slots[k].pid == pid && slots[k].inUse)
      {
        if slots[i].pid == pid && slots[i].inUse {
          return i;
        }
      }
      return -1;
    }

    /** alloctcb and the set-up of a new process: the first free slot, with fresh logs. The
        search never runs off the table. */
    method Attach(pid: int) returns (slot: nat)
      requires Valid() && pid > 0 && !Tracked(slots, pid)
      modifies this
      ensures Valid() && nprocs == old(nprocs) + 1
      ensures |slots| == |old(slots)| || (old(nprocs) == |old(slots)| && |slots| == 2 * |old(slots)|)
      ensures slot < |slots| && slots[slot] == Tcb(pid, true, true, expectSigstop, pid, pid, pid)
      ensures forall i :: 0 <= i < |slots| && i != slot ==>
        slots[i] == if i < |old(slots)| then old(slots)[i] else EMPTY
      ensures slot < |old(slots)| ==> old(slots)[slot] == EMPTY
    {
      if nprocs == |slots| {
        Expand();
      }
      for i := 0 to |slots|
        invariant forall k :: 0 <= k < i ==> slots[k].inUse
      {
        if !slots[i].inUse {
          InUseUpdate(slots, i, Tcb(pid, true, true, expectSigstop, pid, pid, pid));
          slots := slots[i := Tcb(pid, true, true, expectSigstop, pid, pid, pid)];
          nprocs := nprocs + 1;
          return i;
        }
      }
      AllTaken(slots);
      assert false;
    }

    /** droptcb; slots that are not in use are left alone. */
    method Drop(slot: nat)
      requires nprocs == InUse(slots) && slot < |slots|
      requires if slots[slot].pid == 0 then slots[slot] == EMPTY else slots[slot].inUse
      modifies this
      ensures slots == old(slots)[slot := EMPTY] && nprocs == InUse(slots)
      ensures nprocs == old(nprocs) - if old(slots)[slot].inUse then 1 else 0
    {
      InUseUpdate(slots, slot, EMPTY);
      if slots[slot].pid == 0 {
        assert slots[slot := EMPTY] == slots;
        return;
      }
      nprocs := nprocs - 1;
      slots := slots[slot := EMPTY];
    }

    /** The two slots exchange their log files. */
    method SwapLogs(i: nat, j: nat)
      requires i < |slots| && j < |slots| && i != j && nprocs == InUse(slots)
      modifies this`slots
      ensures nprocs == InUse(slots)
      ensures slots
        == old(slots)[i := TakeLogs(old(slots)[i], old(slots)[j])][j := TakeLogs(old(slots)[j], old(slots)[i])]
    {
      var a, b := slots[i], slots[j];
      InUseUpdate(slots, i, TakeLogs(a, b));
      slots := slots[i := TakeLogs(a, b)];
      InUseUpdate(slots, j, TakeLogs(b, a));
      slots := slots[j := TakeLogs(b, a)];
    }

    /** The execve switch: the thread that called execve takes over the leader's pid and logs,
        and the leader's slot is freed. */
    method ExecSwitch(leader: nat, oldPid: int) returns (slot: nat, switched: bool)
      requires Valid() && leader < |slots| && slots[leader].inUse
      modifies this
      ensures Valid() && |slots| == |old(slots)|
      ensures Pids(slots) == old(Pids(slots)) - if oldPid != old(slots)[leader].pid then {oldPid} else {}
      ensures switched <==> oldPid > 0 && oldPid != old(slots)[leader].pid && Tracked(old(slots), oldPid)
      ensures !switched ==> slot == leader && slots == old(slots)
      ensures switched ==>
        && slot < |slots| && slot != leader && old(slots)[slot].pid == oldPid && old(slots)[slot].inUse
        && slots == Switched(old(slots), leader, slot)
    {
      hide Pids, InUse;
      var pid := slots[leader].pid;
      PidsAreTracked(slots, oldPid);
      if oldPid <= 0 || oldPid == pid {
        return leader, false;
      }
      var thread := Pid2Tcb(oldPid);
      if thread == -1 {
        return leader, false;
      }
      SwapLogs(thread, leader);
      Drop(leader);
      InUseUpdate(slots, thread, slots[thread].(pid := pid));
      slots := slots[thread := slots[thread].(pid := pid)];
      assert slots == Switched(old(slots), leader, thread);
      SwitchedIsProper(old(slots), leader, thread);
      PidsSwitched(old(slots), leader, thread);
      return thread, true;
    }

    method FindOrAttach(pid: int) returns (slot: nat, log: seq<Action>)
      requires Valid() && pid > 0
      modifies this
      ensures Valid() && slot < |slots| && slots[slot].inUse && slots[slot].pid == pid
      ensures Pids(slots) == old(Pids(slots)) + {pid}
      ensures Armed(slots) == AfterAll(expectSigstop, old(Armed(slots)), log)
      ensures Legit(expectSigstop, old(Armed(slots)), log)
    {
      hide Pids, Armed, Legit, AfterAll;
      NoActions(expectSigstop, Armed(slots));
      PidsAreTracked(slots, pid);
      var found := Pid2Tcb(pid);
      if found == -1 {
        slot := Attach(pid);
        PidsAttached(old(slots), slots, slot);
        ArmedAttached(old(slots), slots, slot);
        AppendAction(expectSigstop, old(Armed(slots)), [], Attached(slot));
        log := [Attached(slot)];
        assert [] + log == log;
      } else {
        slot, log := found, [];
      }
    }

    /** The first half of a round: find or attach the process and follow an execve. */
    method Locate(st: Status) returns (slot: nat, log: seq<Action>)
      requires Valid() && st.pid > 0
      modifies this
      ensures Valid() && slot < |slots| && slots[slot].inUse && slots[slot].pid == st.pid
      ensures Pids(slots) == PidsSeen(old(Pids(slots)), st)
      ensures Armed(slots) == AfterAll(expectSigstop, old(Armed(slots)), log)
      ensures Legit(expectSigstop, old(Armed(slots)), log)
    {
      hide Legit, AfterAll, Armed, Pids;
      slot, log := FindOrAttach(st.pid);
      if st.event.ExecEvent? && st.oldPidKnown {
        var leader, switched := slot, false;
        ghost var before := slots;
        slot, switched := ExecSwitch(leader, st.oldPid);
        if switched {
          AppendAction(expectSigstop, old(Armed(slots)), log, Dropped(leader));
          log := log + [Dropped(leader)];
          ArmedSwitched(before, leader, slot);
        }
      }
    }

    /** The second half: what to do with a stopped process. */
    method Answer(st: Status, slot: nat) returns (a: Action)
      requires Valid() && slot < |slots| && slots[slot].inUse && st.how.Stopped?
      modifies this`slots
      ensures Valid() && a.slot == slot && !a.Attached? && !a.Dropped?
      ensures |slots| == |old(slots)| && slots[slot].inUse && slots[slot].pid == old(slots)[slot].pid
      ensures Pids(slots) == old(Pids(slots))
      ensures Answers(st, syscallTrap, expectSigstop, a)
      ensures a.Swallowed? <==> st.event.NoEvent? && st.how.sig == SIGSTOP && slot in old(Armed(slots))
      ensures Armed(slots) == After(expectSigstop, old(Armed(slots)), a)
    {
      InUseUpdate(slots, slot, slots[slot].(startup := false));
      slots := slots[slot := slots[slot].(startup := false)];
      assert Armed(slots) == old(Armed(slots));
      PidsKept(old(slots), slot, slots[slot]);
      var sig := st.how.sig;
      var stopped := !st.hasSiginfo;
      if !st.event.NoEvent? {
        if !(st.event.StopEvent? && IsStopSignal(sig)) {
          return Restarted(slot, 0);
        }
        stopped := true;
      } else if sig == SIGSTOP && slots[slot].ignoreOneSigstop {
        InUseUpdate(slots, slot, slots[slot].(ignoreOneSigstop := false));
        PidsKept(slots, slot, slots[slot].(ignoreOneSigstop := false));
        slots := slots[slot := slots[slot].(ignoreOneSigstop := false)];
        return Swallowed(slot);
      } else if sig == syscallTrap {
        return Restarted(slot, 0);
      }
      return if stopped && !expectSigstop then Listening(slot) else Restarted(slot, sig);
    }

    /** One round of the trace loop. */
    method Step(st: Status) returns (slot: nat, log: seq<Action>)
      requires Valid() && st.pid > 0
      modifies this
      ensures Valid() && Pids(slots) == PidsAfter(old(Pids(slots)), st)
      ensures Armed(slots) == AfterAll(expectSigstop, old(Armed(slots)), log)
      ensures Legit(expectSigstop, old(Armed(slots)), log)
      ensures Handles(st, syscallTrap, expectSigstop, old(Armed(slots)), log) && log[|log| - 1].slot == slot
      ensures st.how.Stopped? ==> slot < |slots| && slots[slot].inUse && slots[slot].pid == st.pid
    {
      hide Legit, Pids, Armed, AfterAll, InUse, Answers;
      slot, log := Locate(st);
      var a: Action;
      if st.how.Stopped? {
        a := Answer(st, slot);
      } else {
        PidsDropped(slots, slot);
        ArmedDropped(slots, slot);
        Drop(slot);
        a := Dropped(slot);
      }
      AppendAction(expectSigstop, old(Armed(slots)), log, a);
      ghost var before := log;
      log := log + [a];
      assert log[..|log| - 1] == before;
    }

    /** The loop over a stream of wait statuses, one round each, until no process is left: the
        table stays sound, holds exactly the processes the statuses leave alive, and every round
        answers its status. */
    method Run(statuses: seq<Status>) returns (rounds: seq<seq<Action>>)
      requires Valid() && forall i :: 0 <= i < |statuses| ==> statuses[i].pid > 0
      modifies this
      ensures Valid() && nprocs == |Pids(slots)|
      ensures Ran(statuses, syscallTrap, expectSigstop, old(Pids(slots)), old(Armed(slots)), rounds, Pids(slots),
        Armed(slots))
      ensures |rounds| < |statuses| ==> Pids(slots) == {}
    {
      hide Ran, Proper, InUse, Pids, Armed, PidsAfter, AfterAll, Handles, Legit;
      rounds := [];
      ghost var pids, armed := Pids(slots), Armed(slots);
      NothingRan(statuses, syscallTrap, expectSigstop, pids, armed);
      ProperCount(slots);
      while nprocs != 0 && |rounds| < |statuses|
        invariant Valid() && nprocs == |Pids(slots)| && |rounds| <= |statuses|
        invariant Ran(statuses, syscallTrap, expectSigstop, pids, armed, rounds, Pids(slots), Armed(slots))
        decreases |statuses| - |rounds|
      {
        ghost var now, due := Pids(slots), Armed(slots);
        var _, more := Step(statuses[|rounds|]);
        OneMoreRan(statuses, syscallTrap, expectSigstop, pids, armed, rounds, now, due, more);
        rounds := rounds + [more];
        ProperCount(slots);
      }
    }
  }

  function TakeLogs(t: Tcb, from: Tcb): Tcb {
    t.(textLog := from.textLog, dumpLog := from.dumpLog, stackLog := from.stackLog)
  }

  /** The thread's slot carries the leader's pid and logs, the leader's slot is empty. */
  function Switched(slots: seq<Tcb>, leader: nat, thread: nat): seq<Tcb>
    requires leader < |slots| && thread < |slots|
  {
    slots[leader := EMPTY][thread := RePid(slots[thread], slots[leader].pid)]
  }

  lemma SwitchedIsProper(slots: seq<Tcb>, leader: nat, thread: nat)
    requires Proper(slots) && leader < |slots| && thread < |slots| && leader != thread
    requires slots[leader].inUse && slots[thread].inUse
    ensures Proper(Switched(slots, leader, thread))
  {}

  lemma ArmedSwitched(slots: seq<Tcb>, leader: nat, thread: nat)
    requires leader < |slots| && thread < |slots| && leader != thread
    ensures Armed(Switched(slots, leader, thread)) == Armed(slots) - {leader}
  {}

  lemma ArmedAttached(before: seq<Tcb>, after: seq<Tcb>, slot: nat)
    requires |before| <= |after| && slot < |after|
    requires forall i :: 0 <= i < |after| && i != slot ==> after[i] == if i < |before| then before[i] else EMPTY
    ensures Armed(after) == After(after[slot].ignoreOneSigstop, Armed(before), Attached(slot))
  {}

  lemma ArmedDropped(slots: seq<Tcb>, slot: nat)
    requires slot < |slots|
    ensures Armed(slots[slot := EMPTY]) == Armed(slots) - {slot}
  {}

  function RePid(t: Tcb, pid: int): Tcb {
    t.(pid := pid, textLog := pid, dumpLog := pid, stackLog := pid)
  }

  /** Signals of signal-delivery stops are passed on unchanged, unless they are the expected
      SIGSTOP; system-call stops and ptrace events inject nothing; a group-stop goes on where
      PTRACE_SEIZE is used. */
  predicate Answers(st: Status, syscallTrap: nat, arms: bool, a: Action)
    requires st.how.Stopped?
  {
    var sig := st.how.sig;
    if st.event.NoEvent? then
      || (sig == SIGSTOP && a.Swallowed?)
      || (if sig == syscallTrap then a == Restarted(a.slot, 0)
          else a == if !st.hasSiginfo && !arms then Listening(a.slot) else Restarted(a.slot, sig))
    else if st.event.StopEvent? && IsStopSignal(sig) then a == if arms then Restarted(a.slot, sig)
      else Listening(a.slot)
    else a == Restarted(a.slot, 0)
  }

  // ----- the traced processes -----

  ghost function Pids(slots: seq<Tcb>): set<int> {
    set i | 0 <= i < |slots| && slots[i].inUse :: slots[i].pid
  }

  /** A status shows its process alive; after an execve the pid of the calling thread is gone. */
  ghost function PidsSeen(pids: set<int>, st: Status): set<int> {
    pids + {st.pid} - if st.event.ExecEvent? && st.oldPidKnown && st.oldPid != st.pid then {st.oldPid} else {}
  }

  ghost function PidsAfter(pids: set<int>, st: Status): set<int> {
    PidsSeen(pids, st) - if st.how.Stopped? then {} else {st.pid}
  }

  ghost function PidsAfterAll(pids: set<int>, statuses: seq<Status>): set<int> {
    if statuses == [] then pids
    else PidsAfter(PidsAfterAll(pids, statuses[..|statuses| - 1]), statuses[|statuses| - 1])
  }

  lemma PidsAreTracked(slots: seq<Tcb>, pid: int)
    requires Proper(slots)
    ensures Tracked(slots, pid) <==> pid in Pids(slots)
    ensures Tracked(slots, pid) ==> pid > 0
  {}

  lemma PidsAttached(before: seq<Tcb>, after: seq<Tcb>, slot: nat)
    requires |before| <= |after| && slot < |after| && after[slot].inUse
    requires slot < |before| ==> !before[slot].inUse
    requires forall i :: 0 <= i < |after| && i != slot ==> after[i] == if i < |before| then before[i] else EMPTY
    ensures Pids(after) == Pids(before) + {after[slot].pid}
  {
    forall i | 0 <= i < |before| && before[i].inUse ensures before[i].pid in Pids(after) {
      assert after[i] == before[i];
    }
  }

  lemma PidsSwitched(slots: seq<Tcb>, leader: nat, thread: nat)
    requires Proper(slots) && leader < |slots| && thread < |slots| && leader != thread
    requires slots[leader].inUse && slots[thread].inUse
    ensures Pids(Switched(slots, leader, thread)) == Pids(slots) - {slots[thread].pid}
  {
    var after := Switched(slots, leader, thread);
    assert after[thread].pid == slots[leader].pid;
    forall i | 0 <= i < |slots| && slots[i].inUse && i != thread ensures slots[i].pid in Pids(after) {
      assert i != leader ==> after[i] == slots[i];
    }
  }

  lemma PidsDropped(slots: seq<Tcb>, slot: nat)
    requires Proper(slots) && slot < |slots| && slots[slot].inUse
    ensures Pids(slots[slot := EMPTY]) == Pids(slots) - {slots[slot].pid}
  {
    var after := slots[slot := EMPTY];
    forall i | 0 <= i < |slots| && slots[i].inUse && i != slot ensures slots[i].pid in Pids(after) {
      assert after[i] == slots[i];
    }
  }

  lemma PidsKept(slots: seq<Tcb>, slot: nat, t: Tcb)
    requires slot < |slots| && t.pid == slots[slot].pid && t.inUse == slots[slot].inUse
    ensures Pids(slots[slot := t]) == Pids(slots)
  {
    var after := slots[slot := t];
    forall i | 0 <= i < |slots| ensures after[i].pid == slots[i].pid && after[i].inUse == slots[i].inUse {}
  }

  /** With distinct pids the number of slots in use is the number of processes. */
  lemma {:induction false} PidCount(slots: seq<Tcb>)
    requires forall i, j :: 0 <= i < j < |slots| && slots[i].inUse && slots[j].inUse ==> slots[i].pid != slots[j].pid
    ensures |Pids(slots)| == InUse(slots)
    decreases |slots|
  {
    if slots == [] {
    } else {
      var n := |slots| - 1;
      var rest := slots[..n];
      PidCount(rest);
      assert forall i :: 0 <= i < n ==> rest[i] == slots[i];
      assert Pids(slots) == Pids(rest) + if slots[n].inUse then {slots[n].pid} else {};
    }
  }

  lemma ProperCount(slots: seq<Tcb>)
    requires Proper(slots)
    ensures |Pids(slots)| == InUse(slots)
  {
    PidCount(slots);
  }

  // ----- rounds -----

  /** The last action of a round answers its status: an end frees the slot, a SIGSTOP is
      swallowed exactly when the slot still expects one. */
  ghost predicate Handles(st: Status, syscallTrap: nat, arms: bool, armed: set<nat>, log: seq<Action>) {
    log != [] && var last := log[|log| - 1];
    && (last.Dropped? <==> !st.how.Stopped?)
    && (st.how.Stopped? ==>
      && Answers(st, syscallTrap, arms, last)
      && (last.Swallowed? <==> st.event.NoEvent? && st.how.sig == SIGSTOP
                               && last.slot in AfterAll(arms, armed, log[..|log| - 1])))
  }

  ghost predicate HandlesAll(statuses: seq<Status>, syscallTrap: nat, arms: bool, armed: set<nat>,
      rounds: seq<seq<Action>>) {
    && |rounds| == |statuses|
    && forall i :: 0 <= i < |statuses| ==>
      Handles(statuses[i], syscallTrap, arms, AfterAll(arms, armed, Flatten(rounds[..i])), rounds[i])
  }

  /** What the rounds for the first statuses did: some process was left before each of them; the
      processes now are those the statuses leave alive; every round answered its status; and only
      expected SIGSTOPs were swallowed. */
  ghost predicate Ran(statuses: seq<Status>, trap: nat, arms: bool, pids: set<int>, armed: set<nat>,
                      rounds: seq<seq<Action>>, pidsNow: set<int>, armedNow: set<nat>) {
    && |rounds| <= |statuses|
    && (forall i :: 0 <= i < |rounds| ==> PidsAfterAll(pids, statuses[..i]) != {})
    && pidsNow == PidsAfterAll(pids, statuses[..|rounds|])
    && HandlesAll(statuses[..|rounds|], trap, arms, armed, rounds)
    && armedNow == AfterAll(arms, armed, Flatten(rounds))
    && Legit(arms, armed, Flatten(rounds))
  }

  lemma NothingRan(statuses: seq<Status>, trap: nat, arms: bool, pids: set<int>, armed: set<nat>)
    ensures Ran(statuses, trap, arms, pids, armed, [], pids, armed)
  {}

  lemma OneMoreRan(statuses: seq<Status>, trap: nat, arms: bool, pids: set<int>, armed: set<nat>,
                   rounds: seq<seq<Action>>, now: set<int>, due: set<nat>, more: seq<Action>)
    requires Ran(statuses, trap, arms, pids, armed, rounds, now, due) && |rounds| < |statuses| && now != {}
    requires Handles(statuses[|rounds|], trap, arms, due, more) && Legit(arms, due, more)
    ensures Ran(statuses, trap, arms, pids, armed, rounds + [more],
                PidsAfter(now, statuses[|rounds|]), AfterAll(arms, due, more))
  {
    hide Handles, HandlesAll, AfterAll, PidsAfter, Legit, Flatten;
    LegitConcat(arms, armed, Flatten(rounds), more);
    OneMoreRound(statuses, |rounds|, trap, arms, armed, rounds, more);
    OneMoreStatus(pids, statuses, |rounds|);
  }

  lemma OneMoreStatus(pids: set<int>, statuses: seq<Status>, n: nat)
    requires n < |statuses|
    ensures PidsAfterAll(pids, statuses[..n + 1]) == PidsAfter(PidsAfterAll(pids, statuses[..n]), statuses[n])
  {
    hide PidsAfter;
    assert statuses[..n + 1][..n] == statuses[..n];
  }

  lemma OneMoreRound(statuses: seq<Status>, n: nat, trap: nat, arms: bool, armed: set<nat>,
                     rounds: seq<seq<Action>>, more: seq<Action>)
    requires n < |statuses| && HandlesAll(statuses[..n], trap, arms, armed, rounds)
    requires Handles(statuses[n], trap, arms, AfterAll(arms, armed, Flatten(rounds)), more)
    ensures HandlesAll(statuses[..n + 1], trap, arms, armed, rounds + [more])
    ensures Flatten(rounds + [more]) == Flatten(rounds) + more
  {
    hide Handles, AfterAll;
    var all := rounds + [more];
    assert all[..n] == rounds && statuses[..n + 1][..n] == statuses[..n];
    forall i | 0 <= i < n + 1
      ensures Handles(statuses[i], trap, arms, AfterAll(arms, armed, Flatten(all[..i])), all[i])
    {
      assert i < n ==> all[..i] == rounds[..i] && statuses[..n][i] == statuses[i];
    }
  }

  // ----- one SIGSTOP per lifetime -----

  /** The slots that still expect a SIGSTOP. */
  ghost function Armed(slots: seq<Tcb>): set<nat> {
    set i: nat | i < |slots| && slots[i].ignoreOneSigstop
  }

  ghost function After(arms: bool, armed: set<nat>, a: Action): set<nat> {
    match a
    case Attached(i) => if arms then armed + {i} else armed - {i}
    case Dropped(i) => armed - {i}
    case Swallowed(i) => armed - {i}
    case _ => armed
  }

  ghost function AfterAll(arms: bool, armed: set<nat>, log: seq<Action>): set<nat> {
    if log == [] then armed else After(arms, AfterAll(arms, armed, log[..|log| - 1]), log[|log| - 1])
  }

  /** Every swallowed SIGSTOP was expected at that moment. */
  ghost predicate Legit(arms: bool, armed: set<nat>, log: seq<Action>) {
    forall p :: 0 <= p < |log| && log[p].Swallowed? ==> log[p].slot in AfterAll(arms, armed, log[..p])
  }

  lemma NoActions(arms: bool, armed: set<nat>)
    ensures Legit(arms, armed, []) && AfterAll(arms, armed, []) == armed
  {}

  lemma AppendAction(arms: bool, armed: set<nat>, log: seq<Action>, a: Action)
    requires Legit(arms, armed, log) && (a.Swallowed? ==> a.slot in AfterAll(arms, armed, log))
    ensures Legit(arms, armed, log + [a])
    ensures AfterAll(arms, armed, log + [a]) == After(arms, AfterAll(arms, armed, log), a)
  {
    assert (log + [a])[..|log|] == log;
    assert forall p :: 0 <= p < |log| ==> (log + [a])[..p] == log[..p];
  }

  lemma {:induction false} AfterConcat(arms: bool, armed: set<nat>, a: seq<Action>, b: seq<Action>)
    ensures AfterAll(arms, armed, a + b) == AfterAll(arms, AfterAll(arms, armed, a), b)
    decreases |b|
  {
    if b == [] {
      assert a + b == a;
    } else {
      var n := |b| - 1;
      AfterConcat(arms, armed, a, b[..n]);
      assert (a + b)[..|a| + n] == a + b[..n];
    }
  }

  lemma LegitConcat(arms: bool, armed: set<nat>, a: seq<Action>, b: seq<Action>)
    requires Legit(arms, armed, a) && Legit(arms, AfterAll(arms, armed, a), b)
    ensures Legit(arms, armed, a + b)
    ensures AfterAll(arms, armed, a + b) == AfterAll(arms, AfterAll(arms, armed, a), b)
  {
    AfterConcat(arms, armed, a, b);
    forall p | 0 <= p < |a + b| && (a + b)[p].Swallowed?
      ensures (a + b)[p].slot in AfterAll(arms, armed, (a + b)[..p]) {
      if p < |a| {
        assert (a + b)[..p] == a[..p];
      } else {
        assert (a + b)[..p] == a + b[..p - |a|];
        AfterConcat(arms, armed, a, b[..p - |a|]);
      }
    }
  }

  /** Not armed any more, and not attached anew: still not armed. */
  lemma {:induction false} StaysUnarmed(arms: bool, armed: set<nat>, log: seq<Action>, i: nat)
    requires i !in armed && Attached(i) !in log
    ensures i !in AfterAll(arms, armed, log)
    decreases |log|
  {
    if log == [] {
    } else {
      StaysUnarmed(arms, armed, log[..|log| - 1], i);
    }
  }

  /** Between two swallowed SIGSTOPs of one slot a new process moved in. */
  lemma OneSigstopPerLifetime(arms: bool, armed: set<nat>, log: seq<Action>, a: nat, b: nat)
    requires Legit(arms, armed, log) && a < b < |log|
    requires log[a].Swallowed? && log[b] == log[a]
    ensures exists c :: a < c < b && log[c] == Attached(log[a].slot)
  {
    var i, between := log[a].slot, log[a + 1..b];
    assert log[..b] == log[..a + 1] + between;
    AfterConcat(arms, armed, log[..a + 1], between);
    assert log[..a + 1][..a] == log[..a];
    assert i !in AfterAll(arms, armed, log[..a + 1]);
    if Attached(i) !in between {
      StaysUnarmed(arms, AfterAll(arms, armed, log[..a + 1]), between, i);
      assert false;
    }
    var c :| 0 <= c < |between| && between[c] == Attached(i);
    assert log[a + 1 + c] == Attached(i);
  }
}
