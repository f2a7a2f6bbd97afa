/** The parser as it runs: the scratch directory, the descriptor table and the list of micro
    operations are changed in place, line by line. */
module TraceParser {
  import opened Replay
  import opened Slices
  import opened Compiler
  import opened CompilerProof
  import opened WritePath
  import opened Syscalls
  import opened Parser
  import opened Ops
  import opened Flushing

  /** Two names, two links. */
  lemma TwoLinks(entries: map<Name, int>, a: Name, b: Name)
    requires a in entries && b in entries && a != b && entries[a] == entries[b]
    ensures |LinksOf(entries, entries[a])| >= 2
  {
    assert {a, b} <= LinksOf(entries, entries[a]);
    assert |LinksOf(entries, entries[a]) - {a, b}| + |{a, b}| == |LinksOf(entries, entries[a])|;
  }

  class TraceParser {
    var entries: map<Name, int>
    var sizes: map<int, nat>
    var fds: map<int, OpenFile>
    var used: set<int>
    var microOps: seq<MicroOp>

    function State(): Scratch
      reads this
    {
      Scratch(entries, sizes, fds, used)
    }

    constructor (initial: Scratch)
      ensures State() == initial && microOps == []
    {
      entries, sizes, fds, used := initial.entries, initial.sizes, initial.fds, initial.used;
      microOps := [];
    }

    /** The state after a call, where the parser did not give up. */
    twostate predicate Did(c: Call, ok: bool)
      reads this
    {
      && (ok <==> Parse(old(State()), c).Some?)
      && (ok ==> State() == Parse(old(State()), c).value.0)
      && (ok ==> microOps == old(microOps) + Parse(old(State()), c).value.1)
    }

    /** open: create the file or look it up, truncate it, enter the descriptor. */
    method OpenFileCall(c: Call) returns (ok: bool)
      requires c.Open?
      modifies this
      ensures Did(c, ok)
    {
      var inode, newlyCreated := c.newInode, false;
      if c.name !in entries {
        if !c.create || exists f :: f in fds && fds[f].name == c.name {
          return false;
        }
        entries, sizes, used := entries[c.name := inode], sizes[inode := 0], used + {inode};
        microOps := microOps + [Creat(c.name.0, c.name.1, inode)];
        newlyCreated := true;
      } else {
        inode := entries[c.name];
      }
      if c.trunc && !newlyCreated {
        microOps := microOps + [Trunc(inode, SizeOf(State(), inode), 0)];
        sizes := sizes[inode := 0];
      }
      if c.fd in fds {
        return false;
      }
      fds := fds[c.fd := OpenFile(c.name, inode, 0, c.osync)];
      return true;
    }

    /** write and pwrite: the size is looked up by the descriptor's name. */
    method WriteFileCall(c: Call) returns (ok: bool)
      requires (c.WriteCall? || c.PWriteCall?) && c.count > 0
      modifies this
      ensures Did(c, ok)
    {
      hide WriteOps;
      if c.fd !in fds {
        return true;
      }
      var of := fds[c.fd];
      if of.name !in entries {
        return false;
      }
      var seen := entries[of.name];
      var start := if c.WriteCall? then of.pos else c.pos;
      var ops, pos, size := WriteBranch(of.inode, SizeOf(State(), seen), start, c.count, c.file, c.at, of.osync);
      microOps := microOps + ops;
      sizes := sizes[seen := size];
      if c.WriteCall? {
        fds := fds[c.fd := of.(pos := pos)];
      }
      return true;
    }

    /** rename: a target that loses its last name is first moved out of the way. */
    method RenameFileCall(c: Call) returns (ok: bool)
      requires c.RenameCall?
      modifies this
      ensures Did(c, ok)
    {
      hide LinksOf;
      if c.source !in entries {
        return false;
      }
      var inode := entries[c.source];
      var destInode, destSize: nat, destHardlinks: nat := 0, 0, 0;
      if c.dest in entries {
        destInode := entries[c.dest];
        destSize, destHardlinks := SizeOf(State(), destInode), |LinksOf(entries, destInode)|;
        SomeLink(entries, c.dest);
        if c.source != c.dest && inode == destInode {
          TwoLinks(entries, c.source, c.dest);
        }
      }
      var m := Rename(c.source.0, c.source.1, inode, c.dest.0, c.dest.1, destInode, destSize, destHardlinks);
      assert m == RenameOp(State(), c.source, c.dest);
      microOps := microOps + [m];
      if destHardlinks == 1 {
        if exists fd :: fd in fds && fds[fd].inode == destInode {
          return false;
        }
        entries := entries - {c.dest};
      }
      if c.source !in entries {
        return false;
      }
      if !(c.dest in entries && entries[c.dest] == inode) {
        entries := (entries - {c.source})[c.dest := inode];
      }
      assert destHardlinks == 1 ==> entries == (old(entries) - {c.source})[c.dest := inode];
      return true;
    }

    method TruncateFileCall(c: Call) returns (ok: bool)
      requires c.TruncateCall? || c.FTruncate?
      modifies this
      ensures Did(c, ok)
    {
      if c.FTruncate? && c.fd !in fds {
        return true;
      }
      var name := if c.TruncateCall? then c.name else fds[c.fd].name;
      if name !in entries {
        return false;
      }
      var inode := if c.TruncateCall? then entries[name] else fds[c.fd].inode;
      microOps := microOps + [Trunc(inode, SizeOf(State(), inode), c.size)];
      sizes := sizes[entries[name] := c.size];
      return true;
    }

    method LinkOrUnlinkCall(c: Call) returns (ok: bool)
      requires c.LinkCall? || c.UnlinkCall?
      modifies this
      ensures Did(c, ok)
    {
      hide LinksOf;
      var name := if c.LinkCall? then c.source else c.name;
      if name !in entries || (c.LinkCall? && c.dest in entries) {
        return false;
      }
      var inode := entries[name];
      if c.LinkCall? {
        microOps := microOps + [Link(c.dest.0, c.dest.1, inode)];
        entries := entries[c.dest := inode];
      } else {
        var hardlinks := |LinksOf(entries, inode)|;
        microOps := microOps + [Unlink(name.0, name.1, inode, SizeOf(State(), inode), hardlinks)];
        entries := entries - {name};
      }
      return true;
    }

    /** close, lseek, fsync, sync and printing. */
    method QuietCall(c: Call) returns (ok: bool)
      requires c.Close? || c.LSeek? || c.FSync? || c.SyncAll? || c.PrintCall?
      modifies this
      ensures Did(c, ok)
    {
      match c {
        case Close(fd) => fds := fds - {fd};
        case LSeek(fd, pos) =>
          if fd in fds {
            fds := fds[fd := fds[fd].(pos := pos)];
          }
        case FSync(fd, call) =>
          if fd in fds {
            microOps := microOps + [SyncFile(fds[fd].inode, SizeOf(State(), fds[fd].inode), call)];
          }
        case SyncAll(walk) =>
          var synced := [];
          for i := 0 to |walk|
            invariant unchanged(this) && synced == Synced(State(), walk)[..i]
          {
            var inode := walk[i].0;
            synced := synced + [(inode, if inode in used then SizeOf(State(), inode) else walk[i].1)];
          }
          assert Synced(State(), walk)[..|walk|] == Synced(State(), walk);
          microOps := microOps + [SyncEverything(synced)];
        case PrintCall(text) => microOps := microOps + [Print(text)];
      }
      return true;
    }

    /** One line of the trace; false where the parser gives up. On any state that is in step with
        a file system, the new micro operations do to the disk what the call did, and the parser
        stays in step, if and only if the call is harmless; and they flush exactly what the call
        makes durable. */
    method GetMicroOp(c: Call, ghost w: World, ghost t: Tree) returns (ok: bool)
      requires c.WriteCall? || c.PWriteCall? ==> c.count > 0
      modifies this
      ensures Did(c, ok)
      ensures ok && Tracks(old(State()), w, t) && Possible(old(State()), c) ==>
        (Harmless(old(State()), c) <==>
         Follows(State(), Posix(w, c)) && Agrees(RunRecordedAll(t, microOps[|old(microOps)|..]), Posix(w, c).tree))
      ensures ok && Follows(old(State()), w) && Possible(old(State()), c) ==> forall mode, d :: Usable(mode) ==>
        (SomeFlushes(CompileAll(mode, microOps[|old(microOps)|..]), d) <==> CallFlushes(old(State()), w, c, d))
    {
      hide Parse, Posix, Possible, Harmless, RunRecordedAll, Follows, Agrees, Tracks, SomeFlushes, CallFlushes,
        CompileAll;
      match c {
        case Open(_, _, _, _, _, _) => ok := OpenFileCall(c);
        case WriteCall(_, _, _, _) => ok := WriteFileCall(c);
        case PWriteCall(_, _, _, _, _) => ok := WriteFileCall(c);
        case TruncateCall(_, _) => ok := TruncateFileCall(c);
        case FTruncate(_, _) => ok := TruncateFileCall(c);
        case LinkCall(_, _) => ok := LinkOrUnlinkCall(c);
        case UnlinkCall(_) => ok := LinkOrUnlinkCall(c);
        case RenameCall(_, _) => ok := RenameFileCall(c);
        case _ => ok := QuietCall(c);
      }
      if ok && Tracks(old(State()), w, t) && Possible(old(State()), c) {
        StepExact(old(State()), w, t, c);
        assert microOps[|old(microOps)|..] == Parse(old(State()), c).value.1;
      }
      if ok && Follows(old(State()), w) && Possible(old(State()), c) {
        assert microOps[|old(microOps)|..] == Parse(old(State()), c).value.1;
        forall mode: Splitting, d: DiskOp | Usable(mode)
          ensures SomeFlushes(CompileAll(mode, Parse(old(State()), c).value.1), d) <==>
            CallFlushes(old(State()), w, c, d)
        {
          CallFlushesExactly(old(State()), w, mode, c, d);
        }
      }
    }

    /** get_micro_ops: line by line until the end or the first failure. From a state in step with
        a file system the parser keeps up throughout exactly for harmless traces; then all recorded
        sizes are true, and in every split mode the disk ends as the calls left it. */
    method GetMicroOps(calls: seq<Call>, ghost w: World) returns (ok: bool)
      requires microOps == []
      requires forall i :: 0 <= i < |calls| && (calls[i].WriteCall? || calls[i].PWriteCall?) ==> calls[i].count > 0
      modifies this
      ensures ok <==> ParseAll(old(State()), calls).Some?
      ensures ok ==> (State(), microOps) == ParseAll(old(State()), calls).value
      ensures ok ==> forall mode :: Usable(mode) ==> Printed(CompileAll(mode, microOps)) == Texts(calls)
      ensures ok && Follows(old(State()), w) && PossibleRun(old(State()), calls) ==>
        (AlwaysKeepsUp(old(State()), w, calls) <==> HarmlessRun(old(State()), calls))
      ensures ok && Follows(old(State()), w) && PossibleRun(old(State()), calls) && HarmlessRun(old(State()), calls) ==>
        && Follows(State(), PosixAll(w, calls)) && RecordedRun(w.tree, microOps)
        && forall mode :: Usable(mode) ==>
          Agrees(ReplayAll(w.tree, CompileAll(mode, microOps)), PosixAll(w, calls).tree)
    {
      hide Parse, Harmless, HarmlessRun, PossibleRun, Follows, Agrees, RecordedRun, AlwaysKeepsUp, ReplayAll,
        CompileAll, PosixAll;
      ghost var s := State();
      for i := 0 to |calls|
        invariant ParseAll(s, calls[..i]) == Some((State(), microOps))
      {
        assert calls[..i + 1][..i] == calls[..i];
        var fine := GetMicroOp(calls[i], w, w.tree);
        if !fine {
          StuckParse(s, calls, i + 1);
          return false;
        }
      }
      assert calls[..|calls|] == calls;
      forall mode | Usable(mode) ensures Printed(CompileAll(mode, microOps)) == Texts(calls) {
        TracePrints(s, mode, calls);
      }
      if Follows(s, w) && PossibleRun(s, calls) {
        TraceExact(s, w, calls);
        if HarmlessRun(s, calls) {
          ParsedIsRecorded(s, w, calls);
          TraceTracks(s, w, calls);
          forall mode | Usable(mode)
            ensures Agrees(ReplayAll(w.tree, CompileAll(mode, microOps)), PosixAll(w, calls).tree) {
            TraceToDisk(s, w, mode, calls);
          }
        }
      }
      return true;
    }
  }

  lemma {:induction false} StuckParse(s: Scratch, calls: seq<Call>, n: nat)
    requires n <= |calls| && ParseAll(s, calls[..n]).None?
    ensures ParseAll(s, calls).None?
    decreases |calls|
  {
    hide Parse;
    if n == |calls| {
      assert calls[..n] == calls;
    } else {
      var m := |calls| - 1;
      assert calls[..m][..n] == calls[..n];
      StuckParse(s, calls[..m], n);
    }
  }
}
