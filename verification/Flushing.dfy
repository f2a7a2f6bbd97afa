/** What each call makes durable: which disk operations its syncs flush, over whole traces, and
    what a trace prints. */
module Flushing {
  import opened Ops
  import opened Deps
  import opened Replay
  import opened Slices
  import opened Compiler
  import opened CompilerProof
  import opened Legality
  import opened WritePath
  import opened Syscalls
  import opened Parser

  /** The operation changed that file between the two positions: a write that starts there, any
      truncate, and for a directory any of its entries. */
  predicate Changes(d: DiskOp, inode: int, lo: nat, hi: nat) {
    || (d.Write? && d.inode == inode && lo <= d.offset <= hi)
    || (d.Truncate? && d.inode == inode)
    || ((d.CreateEntry? || d.DeleteEntry?) && d.parent == inode)
  }

  ghost predicate SomeFlushes(ops: seq<DiskOp>, d: DiskOp) {
    exists b :: 0 <= b < |ops| && FsFlushes(ops[b], d)
  }

  // ----- one micro operation -----

  /** What a micro operation is meant to make durable: a whole file, a range, or all listed files. */
  predicate Flushes(m: MicroOp, d: DiskOp) {
    match m
    case SyncFile(inode, size, _) => Changes(d, inode, 0, size)
    case SyncRange(inode, offset, count) => Changes(d, inode, offset, offset + count)
    case SyncEverything(synced) => exists k :: 0 <= k < |synced| && Changes(d, synced[k].0, 0, synced[k].1)
    case _ => false
  }

  lemma SyncFlushes(inode: int, offset: nat, count: nat, call: SyncCall, d: DiskOp)
    ensures FsFlushes(Sync(inode, offset, count, call), d) <==> Changes(d, inode, offset, offset + count)
  {}

  lemma OneFlushes(op: DiskOp, d: DiskOp)
    ensures SomeFlushes([op], d) <==> FsFlushes(op, d)
  {
    assert [op][0] == op;
  }

  lemma NoneFlushes(ops: seq<DiskOp>, d: DiskOp)
    requires forall b :: 0 <= b < |ops| ==> !ops[b].Sync?
    ensures !SomeFlushes(ops, d)
  {}

  /** The compiled micro operation flushes exactly what it is meant to. */
  lemma CompiledFlushes(mode: Splitting, m: MicroOp, d: DiskOp)
    requires Usable(mode)
    ensures SomeFlushes(DiskOps(mode, m), d) <==> Flushes(m, d)
  {
    hide FsFlushes, Changes;
    match m {
      case SyncFile(inode, size, call) =>
        OneFlushes(Sync(inode, 0, size, call), d);
        SyncFlushes(inode, 0, size, call, d);
      case SyncRange(inode, offset, count) =>
        OneFlushes(Sync(inode, offset, count, RangeSync), d);
        SyncFlushes(inode, offset, count, RangeSync, d);
      case SyncEverything(synced) =>
        forall k | 0 <= k < |synced|
          ensures FsFlushes(DiskOps(mode, m)[k], d) <==> Changes(d, synced[k].0, 0, synced[k].1)
        {
          SyncFlushes(synced[k].0, 0, synced[k].1, GlobalSync, d);
        }
      case _ =>
        forall b | 0 <= b < |DiskOps(mode, m)| ensures !DiskOps(mode, m)[b].Sync? {
          BarriersOf(mode, m, b);
        }
        NoneFlushes(DiskOps(mode, m), d);
    }
  }

  /** The system call a sync came from goes along with it. */
  lemma CompiledCall(mode: Splitting, m: MicroOp, b: nat)
    requires Usable(mode) && b < |DiskOps(mode, m)| && DiskOps(mode, m)[b].Sync?
    ensures m.SyncFile? || m.SyncRange? || m.SyncEverything?
    ensures DiskOps(mode, m)[b].call ==
      if m.SyncFile? then m.call else if m.SyncRange? then RangeSync else GlobalSync
  {
    hide SlicesOf, JobOps, ShrinkOps, UnlinkSpec, TruncSpec, AppendSpec;
    BarriersOf(mode, m, b);
  }

  ghost predicate AnyFlushes(ms: seq<MicroOp>, d: DiskOp) {
    exists i :: 0 <= i < |ms| && Flushes(ms[i], d)
  }

  lemma SomeFlushesConcat(a: seq<DiskOp>, b: seq<DiskOp>, d: DiskOp)
    ensures SomeFlushes(a + b, d) <==> SomeFlushes(a, d) || SomeFlushes(b, d)
  {
    hide FsFlushes;
    if i :| 0 <= i < |a| && FsFlushes(a[i], d) {
      assert (a + b)[i] == a[i];
    }
    if i :| 0 <= i < |b| && FsFlushes(b[i], d) {
      assert (a + b)[|a| + i] == b[i];
    }
  }

  lemma {:induction false} ProgramFlushes(mode: Splitting, ms: seq<MicroOp>, d: DiskOp)
    requires Usable(mode)
    ensures SomeFlushes(CompileAll(mode, ms), d) <==> AnyFlushes(ms, d)
    decreases |ms|
  {
    hide DiskOps, SomeFlushes, Flushes;
    if ms == [] {
      NoneFlushes([], d);
    } else {
      var n := |ms| - 1;
      ProgramFlushes(mode, ms[..n], d);
      SomeFlushesConcat(CompileAll(mode, ms[..n]), DiskOps(mode, ms[n]), d);
      CompiledFlushes(mode, ms[n], d);
      assert forall i :: 0 <= i < n ==> ms[..n][i] == ms[i];
    }
  }

  // ----- one call -----

  /** What a call makes durable, told from the file system it is called in: fsync the whole file,
      sync() everything the walk finds, a write through O_SYNC the bytes it writes, others nothing. */
  ghost predicate CallFlushes(s: Scratch, w: World, c: Call, d: DiskOp) {
    match c
    case FSync(fd, _) => fd in w.fds && Changes(d, w.fds[fd].inode, 0, |Content(w.tree, w.fds[fd].inode)|)
    case SyncAll(walk) => exists k :: 0 <= k < |walk| && Changes(d, walk[k].0, 0, WalkSize(s, w, walk[k]))
    case WriteCall(fd, count, _, _) =>
      fd in w.fds && w.fds[fd].osync && Changes(d, w.fds[fd].inode, w.fds[fd].pos, w.fds[fd].pos + count)
    case PWriteCall(fd, count, pos, _, _) =>
      fd in w.fds && w.fds[fd].osync && Changes(d, w.fds[fd].inode, pos, pos + count)
    case _ => false
  }

  /** The true size of a file; stat for everything else. */
  ghost function WalkSize(s: Scratch, w: World, found: (int, nat)): nat {
    if found.0 in s.used then |Content(w.tree, found.0)| else found.1
  }

  /** Two neighbouring ranges together. */
  lemma ChangesJoin(d: DiskOp, inode: int, lo: nat, mid: nat, hi: nat)
    requires lo <= mid <= hi
    ensures Changes(d, inode, lo, hi) <==> Changes(d, inode, lo, mid) || Changes(d, inode, mid, hi)
  {}

  lemma AnyFlushesConcat(a: seq<MicroOp>, b: seq<MicroOp>, d: DiskOp)
    ensures AnyFlushes(a + b, d) <==> AnyFlushes(a, d) || AnyFlushes(b, d)
  {
    hide Flushes;
    if i :| 0 <= i < |a| && Flushes(a[i], d) {
      assert (a + b)[i] == a[i];
    }
    if i :| 0 <= i < |b| && Flushes(b[i], d) {
      assert (a + b)[|a| + i] == b[i];
    }
  }

  lemma OneAnyFlushes(m: MicroOp, d: DiskOp)
    ensures AnyFlushes([m], d) <==> Flushes(m, d)
  {
    assert [m][0] == m;
  }

  lemma SyncIfFlushes(osync: bool, inode: int, pos: nat, count: nat, m: MicroOp, d: DiskOp)
    requires !Flushes(m, d)
    ensures AnyFlushes([m] + SyncIf(osync, inode, pos, count), d) <==> osync && Changes(d, inode, pos, pos + count)
  {
    hide Changes;
    OneAnyFlushes(m, d);
    AnyFlushesConcat([m], SyncIf(osync, inode, pos, count), d);
    if osync {
      OneAnyFlushes(SyncRange(inode, pos, count), d);
    }
  }

  /** A write flushes exactly the range it writes, and only with O_SYNC, whatever size was believed. */
  lemma WriteFlushes(inode: int, size: nat, pos: nat, count: nat, file: string, at: nat, osync: bool, d: DiskOp)
    requires count > 0
    ensures AnyFlushes(WriteOps(inode, size, pos, count, file, at, osync), d) <==>
      osync && Changes(d, inode, pos, pos + count)
  {
    hide Changes, AnyFlushes, SyncIf;
    var o := Overlap(size, pos, count);
    var a, b, c := OverwritePart(inode, size, pos, count, file, at, osync), GapPart(inode, size, pos),
      AppendPart(inode, size, pos, count, file, at, osync);
    NothingFlushes(d);
    AnyFlushesConcat(a + b, c, d);
    AnyFlushesConcat(a, b, d);
    if pos < size {
      SyncIfFlushes(osync, inode, pos, o, Overwrite(inode, pos, o, file, at), d);
    }
    if pos > size {
      OneAnyFlushes(Trunc(inode, size, pos), d);
    }
    if o < count {
      SyncIfFlushes(osync, inode, pos + o, count - o, Append(inode, pos + o, count - o, file, at + o), d);
    }
    ChangesJoin(d, inode, pos, pos + o, pos + count);
  }

  lemma NothingFlushes(d: DiskOp)
    ensures !AnyFlushes([], d)
  {}

  lemma QuietFlushes(s: Scratch, w: World, c: Call, d: DiskOp)
    requires Follows(s, w) && Parse(s, c).Some? && !c.WriteCall? && !c.PWriteCall?
    ensures AnyFlushes(Parse(s, c).value.1, d) <==> CallFlushes(s, w, c, d)
  {
    hide Changes, LinksOf;
    var ops := Parse(s, c).value.1;
    NothingFlushes(d);
    if ops != [] {
      OneAnyFlushes(ops[0], d);
      assert ops == [ops[0]];
      if c.SyncAll? {
        forall k | 0 <= k < |c.walk|
          ensures Synced(s, c.walk)[k] == (c.walk[k].0, WalkSize(s, w, c.walk[k])) {}
      }
    }
  }

  /** Every call the parser accepts flushes exactly what it makes durable, in every split mode. */
  lemma CallFlushesExactly(s: Scratch, w: World, mode: Splitting, c: Call, d: DiskOp)
    requires Usable(mode) && Follows(s, w) && Possible(s, c) && Parse(s, c).Some?
    ensures SomeFlushes(CompileAll(mode, Parse(s, c).value.1), d) <==> CallFlushes(s, w, c, d)
  {
    hide CompileAll, SomeFlushes, Changes, WriteOps, AnyFlushes;
    ProgramFlushes(mode, Parse(s, c).value.1, d);
    if c.WriteCall? || c.PWriteCall? {
      if c.fd in s.fds {
        var of := s.fds[c.fd];
        var pos := if c.WriteCall? then of.pos else c.pos;
        WriteFlushes(of.inode, SizeOf(s, s.entries[of.name]), pos, c.count, c.file, c.at, of.osync, d);
      } else {
        NothingFlushes(d);
      }
    } else {
      QuietFlushes(s, w, c, d);
    }
  }

  /** sync() makes every file durable that has a name. */
  lemma SyncFlushesNamed(s: Scratch, w: World, walk: seq<(int, nat)>, n: Name, d: DiskOp)
    requires Follows(s, w) && Possible(s, SyncAll(walk)) && n in w.tree.entries
    requires Changes(d, w.tree.entries[n], 0, |Content(w.tree, w.tree.entries[n])|)
    ensures CallFlushes(s, w, SyncAll(walk), d)
  {
    var k :| 0 <= k < |walk| && walk[k].0 == s.entries[n];
    assert Changes(d, walk[k].0, 0, WalkSize(s, w, walk[k]));
  }

  // ----- whole traces -----

  /** The disk operations of a trace. */
  ghost function OpsOf(s: Scratch, mode: Splitting, calls: seq<Call>): seq<DiskOp>
    requires Usable(mode) && ParseAll(s, calls).Some?
  {
    CompileAll(mode, ParseAll(s, calls).value.1)
  }

  lemma FlushedConcat(a: seq<DiskOp>, b: seq<DiskOp>, p: nat)
    requires p < |a|
    ensures FlushedByFs(a + b, p, |a + b| - 1) <==> FlushedByFs(a, p, |a| - 1) || SomeFlushes(b, a[p])
  {
    hide FsFlushes;
    var all := a + b;
    assert all[p] == a[p];
    if i :| p < i <= |a| - 1 && FsFlushes(a[i], a[p]) {
      assert all[i] == a[i];
    }
    if i :| 0 <= i < |b| && FsFlushes(b[i], a[p]) {
      assert all[|a| + i] == b[i];
    }
  }

  /** One more call flushes, of everything before, exactly what it makes durable. */
  lemma FlushedByCall(s: Scratch, w: World, mode: Splitting, calls: seq<Call>, c: Call, p: nat)
    requires Usable(mode) && Follows(s, w) && PossibleRun(s, calls + [c]) && HarmlessRun(s, calls)
    requires ParseAll(s, calls).Some? && ParseAll(s, calls + [c]).Some? && p < |OpsOf(s, mode, calls)|
    ensures var before, after := OpsOf(s, mode, calls), OpsOf(s, mode, calls + [c]);
            && before <= after
            && (FlushedByFs(after, p, |after| - 1) <==>
                || FlushedByFs(before, p, |before| - 1)
                || CallFlushes(ParseAll(s, calls).value.0, PosixAll(w, calls), c, before[p]))
  {
    hide CompileAll, FlushedByFs, SomeFlushes, CallFlushes, Follows, HarmlessRun, PossibleRun, Possible, Parse,
      ParseAll,
      PosixAll, Agrees, Known;
    OneMoreCall(s, w, calls, c);
    TraceTracks(s, w, calls);
    var r := ParseAll(s, calls).value;
    var ops := Parse(r.0, c).value.1;
    CompileConcat(mode, r.1, ops);
    var before := CompileAll(mode, r.1);
    FlushedConcat(before, CompileAll(mode, ops), p);
    CallFlushesExactly(r.0, PosixAll(w, calls), mode, c, before[p]);
  }

  /** One of the calls from i on makes the operation durable. */
  ghost predicate LaterCallFlushes(s: Scratch, w: World, calls: seq<Call>, i: nat, d: DiskOp) {
    exists j :: i <= j < |calls| && ParseAll(s, calls[..j]).Some?
      && CallFlushes(ParseAll(s, calls[..j]).value.0, PosixAll(w, calls[..j]), calls[j], d)
  }

  lemma LaterStep(s: Scratch, w: World, calls: seq<Call>, i: nat, d: DiskOp)
    requires i < |calls| && ParseAll(s, calls[..|calls| - 1]).Some?
    ensures var n := |calls| - 1;
            LaterCallFlushes(s, w, calls, i, d) <==>
            || LaterCallFlushes(s, w, calls[..n], i, d)
            || CallFlushes(ParseAll(s, calls[..n]).value.0, PosixAll(w, calls[..n]), calls[n], d)
  {
    hide ParseAll, CallFlushes, PosixAll;
    var n := |calls| - 1;
    assert forall j :: 0 <= j <= n ==> calls[..n][..j] == calls[..j];
  }

  /** Over a whole trace: what the first i calls left on the way to the disk is flushed at the end
      if and only if it was already, or one of the later calls makes it durable. */
  lemma {:induction false} TraceFlushes(s: Scratch, w: World, mode: Splitting, calls: seq<Call>, i: nat, p: nat)
    requires Usable(mode) && Follows(s, w) && PossibleRun(s, calls) && HarmlessRun(s, calls)
    requires ParseAll(s, calls).Some? && i <= |calls|
    requires ParseAll(s, calls[..i]).Some? && p < |OpsOf(s, mode, calls[..i])|
    ensures var first, all := OpsOf(s, mode, calls[..i]), OpsOf(s, mode, calls);
            && first <= all
            && (FlushedByFs(all, p, |all| - 1) <==>
                FlushedByFs(first, p, |first| - 1) || LaterCallFlushes(s, w, calls, i, first[p]))
    decreases |calls|
  {
    hide OpsOf, FlushedByFs, CallFlushes, Follows, ParseAll, PossibleRun, HarmlessRun, PosixAll;
    if i == |calls| {
      assert calls[..i] == calls;
    } else {
      hide LaterCallFlushes;
      var n := |calls| - 1;
      var some := calls[..n];
      assert some[..i] == calls[..i] && some + [calls[n]] == calls;
      ParsedPrefix(s, calls, n);
      TraceFlushes(s, w, mode, some, i, p);
      FlushedByCall(s, w, mode, some, calls[n], p);
      LaterStep(s, w, calls, i, OpsOf(s, mode, calls[..i])[p]);
    }
  }

  // ----- writes through O_SYNC -----

  lemma {:induction false} JobOpsInRange(inode: int, job: Job, slices: seq<Slice>, start: nat, end: nat)
    requires Tiles(slices, start, end) && !job.Cut?
    ensures forall p :: 0 <= p < |JobOps(inode, job, slices)| ==>
      var op := JobOps(inode, job, slices)[p];
      op.Write? && op.inode == inode && start <= op.offset < end
    decreases |slices|
  {
    if slices == [] {
    } else {
      var n := |slices| - 1;
      JobOpsInRange(inode, job, slices[..n], start, slices[n].start);
    }
  }

  /** A data operation and the sync behind it. */
  lemma PartIsFlushed(mode: Splitting, m: MicroOp, count: nat, p: nat)
    requires Usable(mode) && (m.Overwrite? || m.Append?) && count == m.count
    requires p < |DiskOps(mode, m)|
    ensures var ops := CompileAll(mode, [m] + SyncIf(true, m.inode, m.offset, count));
            && DiskOps(mode, m) <= ops && |ops| == |DiskOps(mode, m)| + 1
            && FlushedByFs(ops, p, |ops| - 1)
  {
    hide SlicesOf, JobOps, CompileAll;
    var sync := SyncRange(m.inode, m.offset, count);
    CompileConcat(mode, [m], [sync]);
    CompileSingle(mode, m);
    CompileSingle(mode, sync);
    var slices := SlicesOf(mode, m.offset, m.count);
    SlicesTile(mode, m.offset, m.count);
    JobOpsInRange(m.inode, if m.Append? then AppendFrom(m.offset, m.file, m.at)
      else OverwriteFrom(m.offset, m.file, m.at),
      slices, m.offset, m.offset + m.count);
    FlushedConcat(DiskOps(mode, m), DiskOps(mode, sync), p);
    assert FsFlushes(DiskOps(mode, sync)[0], DiskOps(mode, m)[p]);
  }

  lemma FlushedAfter(a: seq<DiskOp>, b: seq<DiskOp>, p: nat)
    requires p < |b| && FlushedByFs(b, p, |b| - 1)
    ensures FlushedByFs(a + b, |a| + p, |a + b| - 1)
  {
    hide FsFlushes;
    var i :| p < i <= |b| - 1 && FsFlushes(b[i], b[p]);
    assert (a + b)[|a| + i] == b[i] && (a + b)[|a| + p] == b[p];
  }

  lemma AllFlushed(mode: Splitting, part: seq<MicroOp>, m: MicroOp, p: nat)
    requires Usable(mode) && (m.Overwrite? || m.Append?) && part == [m] + SyncIf(true, m.inode, m.offset, m.count)
    requires p < |CompileAll(mode, part)| && CompileAll(mode, part)[p].Write?
    ensures FlushedByFs(CompileAll(mode, part), p, |CompileAll(mode, part)| - 1)
  {
    hide CompileAll, DiskOps, FlushedByFs;
    var ops := CompileAll(mode, part);
    CompileConcat(mode, [m], [SyncRange(m.inode, m.offset, m.count)]);
    CompileSingle(mode, m);
    SyncOp(mode, m.inode, m.offset, m.count);
    if p < |DiskOps(mode, m)| {
      PartIsFlushed(mode, m, m.count, p);
    }
  }

  lemma SyncOp(mode: Splitting, inode: int, offset: nat, count: nat)
    requires Usable(mode)
    ensures CompileAll(mode, [SyncRange(inode, offset, count)]) == [Sync(inode, offset, count, RangeSync)]
  {
    CompileSingle(mode, SyncRange(inode, offset, count));
  }

  lemma GapBefore(mode: Splitting, inode: int, size: nat, pos: nat, p: nat)
    requires Usable(mode) && p < |CompileAll(mode, GapPart(inode, size, pos))|
    ensures var op := CompileAll(mode, GapPart(inode, size, pos))[p]; op.Write? && op.offset < pos
  {
    hide SlicesOf, JobOps;
    if pos > size {
      CompileSingle(mode, Trunc(inode, size, pos));
      SlicesTile(mode, size, pos - size);
      JobOpsInRange(inode, Grow, SlicesOf(mode, size, pos - size), size, pos);
    }
  }

  /** When a write through O_SYNC is over, all its data is flushed. */
  lemma OsyncWriteIsFlushed(mode: Splitting, inode: int, size: nat, pos: nat, count: nat, file: string, at: nat, p: nat)
    requires Usable(mode) && count > 0
    requires var ops := CompileAll(mode, WriteOps(inode, size, pos, count, file, at, true));
             p < |ops| && ops[p].Write? && ops[p].offset >= pos
    ensures var ops := CompileAll(mode, WriteOps(inode, size, pos, count, file, at, true));
            FlushedByFs(ops, p, |ops| - 1)
  {
    hide CompileAll, FlushedByFs, SyncIf, SomeFlushes;
    var o := Overlap(size, pos, count);
    var a, b, c := OverwritePart(inode, size, pos, count, file, at, true), GapPart(inode, size, pos),
      AppendPart(inode, size, pos, count, file, at, true);
    CompileConcat(mode, a + b, c);
    CompileConcat(mode, a, b);
    CompileNothing(mode);
    var x, y, z := CompileAll(mode, a), CompileAll(mode, b), CompileAll(mode, c);
    if p < |x| {
      AllFlushed(mode, a, Overwrite(inode, pos, o, file, at), p);
      FlushedConcat(x, y, p);
      FlushedConcat(x + y, z, p);
    } else if p < |x + y| {
      GapBefore(mode, inode, size, pos, p - |x|);
    } else {
      AllFlushed(mode, c, Append(inode, pos + o, count - o, file, at + o), p - |x + y|);
      FlushedAfter(x + y, z, p - |x + y|);
    }
  }

  lemma CompileNothing(mode: Splitting)
    requires Usable(mode)
    ensures CompileAll(mode, []) == []
  {}

  // ----- printing -----

  function MicroText(ms: seq<MicroOp>): string {
    if ms == [] then ""
    else MicroText(ms[..|ms| - 1]) + if ms[|ms| - 1].Print? then ms[|ms| - 1].text else ""
  }

  /** The texts of the print calls, in order. */
  function Texts(calls: seq<Call>): string {
    if calls == [] then ""
    else Texts(calls[..|calls| - 1]) + if calls[|calls| - 1].PrintCall? then calls[|calls| - 1].text else ""
  }

  lemma {:induction false} PrintedSilent(ops: seq<DiskOp>)
    requires forall i :: 0 <= i < |ops| ==> !ops[i].Stdout?
    ensures Printed(ops) == ""
    decreases |ops|
  {
    if ops == [] {
    } else {
      PrintedSilent(ops[..|ops| - 1]);
    }
  }

  lemma CompiledPrints(mode: Splitting, m: MicroOp)
    requires Usable(mode)
    ensures Printed(DiskOps(mode, m)) == if m.Print? then m.text else ""
  {
    if m.Print? {
      assert [Stdout(m.text)][..0] == [];
    } else {
      hide DiskOps;
      forall i | 0 <= i < |DiskOps(mode, m)| ensures !DiskOps(mode, m)[i].Stdout? {
        BarriersOf(mode, m, i);
      }
      PrintedSilent(DiskOps(mode, m));
    }
  }

  lemma {:induction false} ProgramPrints(mode: Splitting, ms: seq<MicroOp>)
    requires Usable(mode)
    ensures Printed(CompileAll(mode, ms)) == MicroText(ms)
    decreases |ms|
  {
    hide DiskOps, Printed;
    if ms == [] {
      PrintedNothing();
    } else {
      var n := |ms| - 1;
      ProgramPrints(mode, ms[..n]);
      PrintedConcat(CompileAll(mode, ms[..n]), DiskOps(mode, ms[n]));
      CompiledPrints(mode, ms[n]);
    }
  }

  lemma {:induction false} MicroTextConcat(a: seq<MicroOp>, b: seq<MicroOp>)
    ensures MicroText(a + b) == MicroText(a) + MicroText(b)
    decreases |b|
  {
    if b == [] {
      assert a + b == a;
    } else {
      var n := |b| - 1;
      MicroTextConcat(a, b[..n]);
      assert (a + b)[..|a| + n] == a + b[..n];
      TextConcat(MicroText(a), MicroText(b[..n]), if b[n].Print? then b[n].text else "");
    }
  }

  lemma {:induction false} SilentOps(ms: seq<MicroOp>)
    requires forall i :: 0 <= i < |ms| ==> !ms[i].Print?
    ensures MicroText(ms) == ""
    decreases |ms|
  {
    if ms == [] {
    } else {
      SilentOps(ms[..|ms| - 1]);
    }
  }

  lemma CallPrints(s: Scratch, c: Call)
    requires Parse(s, c).Some?
    ensures MicroText(Parse(s, c).value.1) == if c.PrintCall? then c.text else ""
  {
    hide LinksOf, WriteOps;
    if (c.WriteCall? || c.PWriteCall?) && c.fd in s.fds {
      var of := s.fds[c.fd];
      WriteIsSilent(of.inode, SizeOf(s, s.entries[of.name]), if c.WriteCall? then of.pos else c.pos, c.count, c.file,
        c.at, of.osync);
    } else if Parse(s, c).value.1 != [] {
      OneText(Parse(s, c).value.1[0]);
      assert Parse(s, c).value.1 == [Parse(s, c).value.1[0]];
    }
  }

  lemma OneText(m: MicroOp)
    ensures MicroText([m]) == if m.Print? then m.text else ""
  {
    assert [m][..0] == [];
  }

  lemma WriteIsSilent(inode: int, size: nat, pos: nat, count: nat, file: string, at: nat, osync: bool)
    ensures MicroText(WriteOps(inode, size, pos, count, file, at, osync)) == ""
  {
    SilentOps(WriteOps(inode, size, pos, count, file, at, osync));
  }

  /** A trace prints the texts of its print calls, in order, and nothing else. */
  lemma {:induction false} TracePrints(s: Scratch, mode: Splitting, calls: seq<Call>)
    requires Usable(mode) && ParseAll(s, calls).Some?
    ensures Printed(OpsOf(s, mode, calls)) == Texts(calls)
    decreases |calls|
  {
    if calls == [] {
      PrintedNothing();
    } else {
      hide Parse, CompileAll, Printed;
      var n := |calls| - 1;
      TracePrints(s, mode, calls[..n]);
      var r := ParseAll(s, calls[..n]).value;
      var ops := Parse(r.0, calls[n]).value.1;
      ProgramPrints(mode, r.1 + ops);
      ProgramPrints(mode, r.1);
      MicroTextConcat(r.1, ops);
      CallPrints(r.0, calls[n]);
    }
  }
}
