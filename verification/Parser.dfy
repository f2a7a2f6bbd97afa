/** Whole traces: the parser follows the calls on a scratch copy of the file system, emits micro
    operations, and what these leave on disk is what the calls themselves did. */
module Parser {
  import opened Files
  import opened Replay
  import opened Slices
  import opened Compiler
  import opened CompilerProof
  import opened WritePath
  import opened Syscalls

  // ----- keeping up -----

  /** The scratch copy knows the names, the descriptors, and the size of every file. */
  ghost predicate Follows(s: Scratch, w: World) {
    && s.entries == w.tree.entries && s.fds == w.fds
    && (forall n :: n in s.entries ==> s.entries[n] in s.used)
    && (forall fd :: fd in s.fds ==> s.fds[fd].inode in s.used)
    && (forall i :: i in s.used ==> SizeOf(s, i) == |Content(w.tree, i)|)
    && (forall i :: i in w.tree.files ==> i in s.used)
  }

  /** The same names, and the same contents behind every name. */
  ghost predicate Agrees(t: Tree, u: Tree) {
    t.entries == u.entries && forall n :: n in t.entries ==> Content(t, t.entries[n]) == Content(u, t.entries[n])
  }

  /** Only files the parser has seen have contents. */
  ghost predicate Known(t: Tree, s: Scratch) {
    forall i :: i in t.files ==> i in s.used
  }

  /** t is what the disk operations so far left behind, w what the calls did. */
  ghost predicate Tracks(s: Scratch, w: World, t: Tree) {
    Follows(s, w) && Agrees(t, w.tree) && Known(t, s)
  }

  /** The call keeps the scratch copy in step, and its micro operations do what it did. */
  ghost predicate StepOk(s: Scratch, w: World, t: Tree, c: Call)
    requires Parse(s, c).Some?
  {
    && Follows(Parse(s, c).value.0, Posix(w, c))
    && Agrees(RunRecordedAll(t, Parse(s, c).value.1), Posix(w, c).tree)
  }

  lemma OneLink(entries: map<Name, int>, name: Name)
    requires name in entries && |LinksOf(entries, entries[name])| == 1
    ensures !Linked(entries - {name}, entries[name])
  {
    var links := LinksOf(entries, entries[name]);
    assert links == {name} by {
      assert name in links;
      assert |links - {name}| == 0;
    }
    forall n | n in entries - {name} ensures entries[n] != entries[name] {
      assert n !in links;
    }
  }

  lemma SomeLink(entries: map<Name, int>, name: Name)
    requires name in entries
    ensures |LinksOf(entries, entries[name])| >= 1
  {
    assert name in LinksOf(entries, entries[name]);
  }

  lemma OneOp(t: Tree, m: MicroOp)
    ensures RunRecordedAll(t, [m]) == RunRecorded(t, m)
  {
    hide RunRecorded;
    assert [m][..0] == [];
  }

  lemma NoOp(t: Tree)
    ensures RunRecordedAll(t, []) == t
  {}

  // ----- writes -----

  lemma {:induction false} RunRecordedConcat(t: Tree, a: seq<MicroOp>, b: seq<MicroOp>)
    ensures RunRecordedAll(t, a + b) == RunRecordedAll(RunRecordedAll(t, a), b)
    decreases |b|
  {
    hide RunRecorded;
    if b == [] {
      assert a + b == a;
    } else {
      var n := |b| - 1;
      RunRecordedConcat(t, a, b[..n]);
      assert (a + b)[..|a| + n] == a + b[..n];
    }
  }

  lemma WriteRecorded(t: Tree, inode: int, size: nat, pos: nat, count: nat, file: string, at: nat, osync: bool)
    ensures RunRecordedAll(t, WriteOps(inode, size, pos, count, file, at, osync))
      == SetContent(t, inode, WriteResult(Content(t, inode), size, pos, DumpBytes(file, at, count)))
  {
    hide ReplayAll, CompileAll, RunRecordedAll, WriteOps, SetContent, WriteResult, DumpBytes;
    WriteEffect(t, Count(1), inode, size, pos, count, file, at, osync);
    CompileAllMeaning(t, Count(1), WriteOps(inode, size, pos, count, file, at, osync));
  }

  /** The sizes stay true exactly when the write is harmless. */
  lemma WriteFollows(s: Scratch, w: World, of: OpenFile, pos: nat, count: nat, file: string, at: nat)
    requires Follows(s, w) && count > 0 && of.name in s.entries && of.inode in s.used
    ensures var t := WriteTo(w.tree, of.inode, pos, DumpBytes(file, at, count));
            Follows(ParseWrite(s, of, pos, count, file, at).value.0, w.(tree := t)) <==>
              HarmlessWrite(s, of, pos, count)
  {
    hide WriteOps, PWrite, DumpBytes, SetContent;
    var f, seen := Content(w.tree, of.inode), s.entries[of.name];
    var g := PWrite(f, pos, DumpBytes(file, at, count));
    var s', t' := ParseWrite(s, of, pos, count, file, at).value.0, SetContent(w.tree, of.inode, g);
    assert |g| == Max(|f|, pos + count);
    assert SizeOf(s', seen) == Max(SizeOf(s, seen), pos + count);
    if seen != of.inode {
      assert Content(t', seen) == Content(w.tree, seen) && SizeOf(s', of.inode) == SizeOf(s, of.inode);
    }
    ContentsGrow(w.tree, of.inode, g);
  }

  lemma ContentsGrow(t: Tree, inode: int, f: File)
    ensures forall i :: i in SetContent(t, inode, f).files ==> i in t.files || i == inode
  {}

  lemma WriteAgrees(s: Scratch, w: World, t: Tree, of: OpenFile, pos: nat, count: nat, file: string, at: nat)
    requires Tracks(s, w, t) && count > 0 && of.name in s.entries && of.inode in s.used
    requires HarmlessWrite(s, of, pos, count)
    ensures Agrees(RunRecordedAll(t, ParseWrite(s, of, pos, count, file, at).value.1),
                   WriteTo(w.tree, of.inode, pos, DumpBytes(file, at, count)))
  {
    hide RunRecordedAll, WriteOps, PWrite, DumpBytes, SetContent, WriteResult;
    var size, data := SizeOf(s, s.entries[of.name]), DumpBytes(file, at, count);
    WriteRecorded(t, of.inode, size, pos, count, file, at, of.osync);
    if Linked(s.entries, of.inode) {
      ZerosBeforeWrite(Content(w.tree, of.inode), size, pos, data);
    }
  }

  lemma WriteStep(s: Scratch, w: World, t: Tree, c: Call)
    requires Tracks(s, w, t) && Possible(s, c) && Parse(s, c).Some?
    requires c.WriteCall? || c.PWriteCall?
    ensures StepOk(s, w, t, c) <==> Harmless(s, c)
  {
    hide RunRecordedAll, WriteOps, PWrite, DumpBytes, WriteTo, Agrees, HarmlessWrite;
    if c.fd in s.fds {
      var of := s.fds[c.fd];
      assert of.inode in s.used;
      hide Follows, Known;
      var pos := if c.WriteCall? then of.pos else c.pos;
      WriteFollows(s, w, of, pos, c.count, c.file, c.at);
      var r := ParseWrite(s, of, pos, c.count, c.file, c.at).value;
      var t' := WriteTo(w.tree, of.inode, pos, DumpBytes(c.file, c.at, c.count));
      FollowsFds(r.0, w.(tree := t'), c.fd, of, Posix(w, c).fds);
      if Harmless(s, c) {
        WriteAgrees(s, w, t, of, pos, c.count, c.file, c.at);
      }
    } else {
      NoOp(t);
    }
  }

  /** A moved file position changes nothing else. */
  lemma FollowsFds(s: Scratch, w: World, fd: int, of: OpenFile, fds: map<int, OpenFile>)
    requires s.fds == w.fds && fd in s.fds && s.fds[fd] == of
    requires fds == s.fds || exists pos :: fds == s.fds[fd := of.(pos := pos)]
    ensures Follows(s.(fds := fds), w.(fds := fds)) <==> Follows(s, w)
  {
    forall f | f in s.fds ensures f in fds && fds[f].inode == s.fds[f].inode {}
    forall f | f in fds ensures f in s.fds {}
  }

  // ----- truncates -----

  /** From the true size a truncation is ftruncate(). */
  lemma TruncFromTrueSize(f: File, size: nat)
    ensures TruncResult(f, |f|, size) == Resize(f, size)
  {
    if |f| <= size {
      TruncExact(f, |f|, size);
    } else {
      CutIsResize(f, |f|, size);
    }
  }

  lemma ResizeFollows(s: Scratch, w: World, inode: int, seen: int, size: nat)
    requires Follows(s, w) && inode in s.used && seen in s.used
    ensures Follows(s.(sizes := s.sizes[seen := size]), w.(tree := Resized(w.tree, inode, size))) <==>
      seen == inode || size == SizeOf(s, seen) == SizeOf(s, inode)
  {
    hide Resize, SetContent;
    var s', f := s.(sizes := s.sizes[seen := size]), Resize(Content(w.tree, inode), size);
    var t' := SetContent(w.tree, inode, f);
    assert SizeOf(s', seen) == size && |Content(t', inode)| == size;
    if seen != inode {
      assert SizeOf(s', inode) == SizeOf(s, inode) && Content(t', seen) == Content(w.tree, seen);
    }
    ContentsGrow(w.tree, inode, f);
  }

  lemma ResizeAgrees(s: Scratch, w: World, t: Tree, inode: int, size: nat)
    requires Tracks(s, w, t) && inode in s.used
    ensures Agrees(RunRecorded(t, Trunc(inode, SizeOf(s, inode), size)), Resized(w.tree, inode, size))
  {
    hide Resize, SetContent, TruncResult;
    if Linked(s.entries, inode) {
      TruncFromTrueSize(Content(w.tree, inode), size);
    }
  }

  lemma TruncStep(s: Scratch, w: World, t: Tree, c: Call)
    requires Tracks(s, w, t) && Parse(s, c).Some? && (c.TruncateCall? || c.FTruncate?)
    ensures StepOk(s, w, t, c) <==> Harmless(s, c)
  {
    hide RunRecordedAll, RunRecorded, Resized, Agrees;
    if c.TruncateCall? || c.fd in s.fds {
      var seen := s.entries[if c.TruncateCall? then c.name else s.fds[c.fd].name];
      var inode := if c.TruncateCall? then seen else s.fds[c.fd].inode;
      ResizeFollows(s, w, inode, seen, c.size);
      ResizeAgrees(s, w, t, inode, c.size);
      OneOp(t, Trunc(inode, SizeOf(s, inode), c.size));
    } else {
      NoOp(t);
    }
  }

  // ----- names -----

  lemma CreateStep(s: Scratch, w: World, t: Tree, name: Name, inode: int, fd: int, of: OpenFile)
    requires Tracks(s, w, t) && name !in s.entries && inode !in s.used && of.inode == inode
    ensures var s' := Scratch(s.entries[name := inode], s.sizes[inode := 0], s.fds[fd := of], s.used + {inode});
            var w' := World(w.tree.(entries := w.tree.entries[name := inode]), w.fds[fd := of]);
            Follows(s', w') && Agrees(t.(entries := t.entries[name := inode]), w'.tree)
  {
    assert inode !in t.files && inode !in w.tree.files;
  }

  lemma NewDescriptor(s: Scratch, w: World, fd: int, of: OpenFile)
    requires Follows(s, w) && of.inode in s.used
    ensures Follows(s.(fds := s.fds[fd := of]), w.(fds := w.fds[fd := of]))
  {}

  lemma OpenStep(s: Scratch, w: World, t: Tree, c: Call)
    requires Tracks(s, w, t) && Possible(s, c) && Parse(s, c).Some? && c.Open?
    ensures StepOk(s, w, t, c)
  {
    hide RunRecordedAll, RunRecorded, Resized, Follows, Agrees, Known;
    SameNames(s, w, t);
    if c.name !in s.entries {
      var of := OpenFile(c.name, c.newInode, 0, c.osync);
      OneOp(t, Creat(c.name.0, c.name.1, c.newInode));
      RunCreat(t, c.name, c.newInode);
      CreateStep(s, w, t, c.name, c.newInode, c.fd, of);
    } else {
      var inode := s.entries[c.name];
      var of := OpenFile(c.name, inode, 0, c.osync);
      if c.trunc {
        OneOp(t, Trunc(inode, SizeOf(s, inode), 0));
        ResizeFollows(s, w, inode, inode, 0);
        ResizeAgrees(s, w, t, inode, 0);
        ResizedToNothing(w.tree, inode);
        NewDescriptor(s.(sizes := s.sizes[inode := 0]), w.(tree := Resized(w.tree, inode, 0)), c.fd, of);
      } else {
        NoOp(t);
        NewDescriptor(s, w, c.fd, of);
      }
    }
  }

  lemma SameNames(s: Scratch, w: World, t: Tree)
    requires Tracks(s, w, t)
    ensures s.entries == w.tree.entries == t.entries && s.fds == w.fds
    ensures forall n :: n in s.entries ==> s.entries[n] in s.used
    ensures Agrees(t, w.tree)
  {}

  lemma RunCreat(t: Tree, name: Name, inode: int)
    ensures RunRecorded(t, Creat(name.0, name.1, inode)) == t.(entries := t.entries[name := inode])
  {}

  lemma ResizedToNothing(t: Tree, inode: int)
    ensures Resized(t, inode, 0) == SetContent(t, inode, [])
  {}

  lemma UnlinkStep(s: Scratch, w: World, t: Tree, c: Call)
    requires Tracks(s, w, t) && Parse(s, c).Some? && c.UnlinkCall?
    ensures StepOk(s, w, t, c)
  {
    hide RunRecordedAll, RunRecorded, LinksOf, Agrees, Known;
    SameNames(s, w, t);
    var inode := s.entries[c.name];
    OneOp(t, Unlink(c.name.0, c.name.1, inode, SizeOf(s, inode), |LinksOf(s.entries, inode)|));
    UnlinkAgrees(t, w.tree, c.name, SizeOf(s, inode));
  }

  lemma UnlinkAgrees(t: Tree, u: Tree, name: Name, size: nat)
    requires Agrees(t, u) && name in t.entries
    ensures var m := Unlink(name.0, name.1, t.entries[name], size, |LinksOf(t.entries, t.entries[name])|);
            Agrees(RunRecorded(t, m), u.(entries := u.entries - {name}))
  {
    hide LinksOf, SetContent;
    if |LinksOf(t.entries, t.entries[name])| == 1 {
      OneLink(t.entries, name);
    }
  }

  /** The compiled rename moves the name; the contents of a target that loses its last name go. */
  lemma RenameRecorded(s: Scratch, t: Tree, source: Name, dest: Name)
    requires s.entries == t.entries && ParseRename(s, source, dest).Some?
    ensures var m, t' := RenameOp(s, source, dest), RunRecorded(t, RenameOp(s, source, dest));
            && t'.entries == (t.entries - {source})[dest := s.entries[source]]
            && (forall i :: Content(t', i) == Content(t, i) || (m.destHardlinks == 1 && i == m.destInode))
  {
    hide LinksOf, SetContent;
  }

  lemma RenameAgrees(s: Scratch, w: World, t: Tree, source: Name, dest: Name)
    requires Tracks(s, w, t) && ParseRename(s, source, dest).Some? && Harmless(s, RenameCall(source, dest))
    ensures Agrees(RunRecorded(t, RenameOp(s, source, dest)), Renamed(w.tree, source, dest))
  {
    hide LinksOf, RunRecorded, Follows, Known;
    SameNames(s, w, t);
    var m, t' := RenameOp(s, source, dest), RunRecorded(t, RenameOp(s, source, dest));
    RenameRecorded(s, t, source, dest);
    if dest in s.entries && |LinksOf(s.entries, s.entries[dest])| == 1 {
      OneLink(s.entries, dest);
    }
    assert t'.entries == Renamed(w.tree, source, dest).entries;
    forall n | n in t'.entries ensures Content(t', t'.entries[n]) == Content(w.tree, t'.entries[n]) {
      if n != dest {
        assert n in s.entries - {dest};
      }
    }
  }

  /** Between two names of one file the compiled rename loses one of them. */
  lemma RenameDisagrees(s: Scratch, w: World, t: Tree, source: Name, dest: Name)
    requires Tracks(s, w, t) && ParseRename(s, source, dest).Some? && !Harmless(s, RenameCall(source, dest))
    ensures !Agrees(RunRecorded(t, RenameOp(s, source, dest)), Renamed(w.tree, source, dest))
  {
    hide LinksOf, RunRecorded, Follows, Known;
    SameNames(s, w, t);
    RenameRecorded(s, t, source, dest);
    assert source !in RunRecorded(t, RenameOp(s, source, dest)).entries;
  }

  lemma RenameFollows(s: Scratch, w: World, source: Name, dest: Name)
    requires Follows(s, w) && ParseRename(s, source, dest).Some?
    ensures Follows(ParseRename(s, source, dest).value.0, w.(tree := Renamed(w.tree, source, dest)))
  {
    hide LinksOf;
    if dest in s.entries {
      SomeLink(s.entries, dest);
    }
  }

  lemma RenameStep(s: Scratch, w: World, t: Tree, c: Call)
    requires Tracks(s, w, t) && Parse(s, c).Some? && c.RenameCall?
    ensures StepOk(s, w, t, c) <==> Harmless(s, c)
  {
    hide RunRecordedAll, RunRecorded, RenameOp, Renamed, Agrees, Follows, Known;
    SameNames(s, w, t);
    OneOp(t, RenameOp(s, c.source, c.dest));
    RenameFollows(s, w, c.source, c.dest);
    if Harmless(s, c) {
      RenameAgrees(s, w, t, c.source, c.dest);
    } else {
      RenameDisagrees(s, w, t, c.source, c.dest);
    }
  }

  lemma LinkStep(s: Scratch, w: World, t: Tree, c: Call)
    requires Tracks(s, w, t) && Parse(s, c).Some? && c.LinkCall?
    ensures StepOk(s, w, t, c)
  {
    hide RunRecordedAll, Follows, Known;
    SameNames(s, w, t);
    OneOp(t, Link(c.dest.0, c.dest.1, s.entries[c.source]));
    LinkFollows(s, w, c.source, c.dest);
  }

  lemma LinkFollows(s: Scratch, w: World, source: Name, dest: Name)
    requires Follows(s, w) && source in s.entries
    ensures var entries := s.entries[dest := s.entries[source]];
            Follows(s.(entries := entries), w.(tree := w.tree.(entries := entries)))
  {}

  // ----- every call -----

  lemma RunQuiet(t: Tree, m: MicroOp)
    requires m.SyncFile? || m.SyncEverything? || m.Print?
    ensures RunRecordedAll(t, [m]) == t
  {
    OneOp(t, m);
  }

  lemma DescriptorGone(s: Scratch, w: World, fd: int)
    requires Follows(s, w)
    ensures Follows(s.(fds := s.fds - {fd}), w.(fds := w.fds - {fd}))
  {}

  /** Calls that leave the tree alone. */
  lemma QuietStep(s: Scratch, w: World, t: Tree, c: Call)
    requires Tracks(s, w, t) && (c.Close? || c.LSeek? || c.FSync? || c.SyncAll? || c.PrintCall?)
    ensures StepOk(s, w, t, c)
  {
    hide RunRecordedAll, Agrees, Follows, Known;
    SameNames(s, w, t);
    NoOp(t);
    match c {
      case Close(fd) => DescriptorGone(s, w, fd);
      case LSeek(fd, pos) =>
        if fd in s.fds {
          FollowsFds(s, w, fd, s.fds[fd], s.fds[fd := s.fds[fd].(pos := pos)]);
        }
      case FSync(fd, call) =>
        if fd in s.fds {
          RunQuiet(t, SyncFile(s.fds[fd].inode, SizeOf(s, s.fds[fd].inode), call));
        }
      case SyncAll(walk) => RunQuiet(t, SyncEverything(Synced(s, walk)));
      case PrintCall(text) => RunQuiet(t, Print(text));
    }
  }

  lemma RunTouches(t: Tree, m: MicroOp)
    ensures forall i :: i in RunRecorded(t, m).files ==>
      i in t.files || ((m.Trunc? || m.Append? || m.Overwrite?) && m.inode == i)
  {
    hide TruncResult, PWrite, DumpBytes;
  }

  /** The micro operations only touch files the parser has seen. */
  lemma StepKnown(s: Scratch, w: World, t: Tree, c: Call)
    requires Follows(s, w) && Known(t, s) && Parse(s, c).Some?
    ensures Known(RunRecordedAll(t, Parse(s, c).value.1), Parse(s, c).value.0)
  {
    hide RunRecordedAll, RunRecorded, WriteOps, WriteResult, DumpBytes, LinksOf, SetContent;
    var ops := Parse(s, c).value.1;
    NoOp(t);
    if (c.WriteCall? || c.PWriteCall?) && c.fd in s.fds {
      var of, pos := s.fds[c.fd], if c.WriteCall? then s.fds[c.fd].pos else c.pos;
      var size, data := SizeOf(s, s.entries[of.name]), DumpBytes(c.file, c.at, c.count);
      WriteRecorded(t, of.inode, size, pos, c.count, c.file, c.at, of.osync);
      ContentsGrow(t, of.inode, WriteResult(Content(t, of.inode), size, pos, data));
    } else if ops != [] {
      OneOp(t, ops[0]);
      assert ops == [ops[0]];
      RunTouches(t, ops[0]);
    }
  }

  /** One call: the parser gets it right if and only if it is harmless. */
  lemma StepExact(s: Scratch, w: World, t: Tree, c: Call)
    requires Tracks(s, w, t) && Possible(s, c) && Parse(s, c).Some?
    ensures StepOk(s, w, t, c) <==> Harmless(s, c)
  {
    hide Tracks, StepOk, Parse;
    match c {
      case Open(_, _, _, _, _, _) => OpenStep(s, w, t, c);
      case WriteCall(_, _, _, _) => WriteStep(s, w, t, c);
      case PWriteCall(_, _, _, _, _) => WriteStep(s, w, t, c);
      case TruncateCall(_, _) => TruncStep(s, w, t, c);
      case FTruncate(_, _) => TruncStep(s, w, t, c);
      case LinkCall(_, _) => LinkStep(s, w, t, c);
      case UnlinkCall(_) => UnlinkStep(s, w, t, c);
      case RenameCall(_, _) => RenameStep(s, w, t, c);
      case _ => QuietStep(s, w, t, c);
    }
  }

  // ----- whole traces -----

  /** After these calls the sizes are true and the micro operations have done what the calls did. */
  ghost predicate KeepsUp(s: Scratch, w: World, calls: seq<Call>)
    requires ParseAll(s, calls).Some?
  {
    && Follows(ParseAll(s, calls).value.0, PosixAll(w, calls))
    && Agrees(RunRecordedAll(w.tree, ParseAll(s, calls).value.1), PosixAll(w, calls).tree)
  }

  ghost predicate AlwaysKeepsUp(s: Scratch, w: World, calls: seq<Call>) {
    forall n :: 0 <= n <= |calls| ==> ParseAll(s, calls[..n]).Some? && KeepsUp(s, w, calls[..n])
  }

  lemma {:induction false} TraceTracks(s: Scratch, w: World, calls: seq<Call>)
    requires Follows(s, w) && PossibleRun(s, calls) && HarmlessRun(s, calls) && ParseAll(s, calls).Some?
    ensures Tracks(ParseAll(s, calls).value.0, PosixAll(w, calls), RunRecordedAll(w.tree, ParseAll(s, calls).value.1))
    decreases |calls|
  {
    if calls == [] {
    } else {
      hide Parse, Posix, Possible, Harmless, RunRecordedAll, Agrees, Known;
      var n := |calls| - 1;
      TraceTracks(s, w, calls[..n]);
      var r := ParseAll(s, calls[..n]).value;
      var w1, t1 := PosixAll(w, calls[..n]), RunRecordedAll(w.tree, r.1);
      StepExact(r.0, w1, t1, calls[n]);
      StepKnown(r.0, w1, t1, calls[n]);
      RunRecordedConcat(w.tree, r.1, Parse(r.0, calls[n]).value.1);
    }
  }

  lemma AlwaysSoFar(s: Scratch, w: World, calls: seq<Call>)
    requires calls != []
    ensures AlwaysKeepsUp(s, w, calls) <==>
      AlwaysKeepsUp(s, w, calls[..|calls| - 1]) && ParseAll(s, calls).Some? && KeepsUp(s, w, calls)
  {
    hide ParseAll, KeepsUp;
    var n := |calls| - 1;
    assert forall k :: 0 <= k <= n ==> calls[..n][..k] == calls[..k];
    assert calls[..|calls|] == calls;
  }

  /** Over a whole trace the parser keeps up after every call, with sizes and with contents, if and
      only if every call is harmless in the state it comes in. */
  lemma {:induction false} TraceExact(s: Scratch, w: World, calls: seq<Call>)
    requires Follows(s, w) && PossibleRun(s, calls) && ParseAll(s, calls).Some?
    ensures AlwaysKeepsUp(s, w, calls) <==> HarmlessRun(s, calls)
    decreases |calls|
  {
    if calls == [] {
      assert calls[..0] == calls;
      NoOp(w.tree);
    } else {
      hide Parse, Posix, Possible, Harmless, RunRecordedAll, Agrees, Follows, Known, AlwaysKeepsUp;
      var n := |calls| - 1;
      TraceExact(s, w, calls[..n]);
      AlwaysSoFar(s, w, calls);
      if HarmlessRun(s, calls[..n]) {
        TraceTracks(s, w, calls[..n]);
        var r := ParseAll(s, calls[..n]).value;
        StepExact(r.0, PosixAll(w, calls[..n]), RunRecordedAll(w.tree, r.1), calls[n]);
        RunRecordedConcat(w.tree, r.1, Parse(r.0, calls[n]).value.1);
      }
    }
  }

  /** For every harmless trace and every split mode: replaying all disk operations gives the file
      system that the calls produced, name by name, and all sizes the parser works with are true. */
  lemma TraceToDisk(s: Scratch, w: World, mode: Splitting, calls: seq<Call>)
    requires Usable(mode) && Follows(s, w) && PossibleRun(s, calls) && HarmlessRun(s, calls) && ParseAll(s, calls).Some?
    ensures Follows(ParseAll(s, calls).value.0, PosixAll(w, calls))
    ensures Agrees(ReplayAll(w.tree, CompileAll(mode, ParseAll(s, calls).value.1)), PosixAll(w, calls).tree)
  {
    TraceTracks(s, w, calls);
    CompileAllMeaning(w.tree, mode, ParseAll(s, calls).value.1);
  }

  // ----- recorded sizes -----

  /** What a micro operation records about the files it works on is true. The file behind a
      descriptor may have lost its names; then nothing on disk depends on it. */
  ghost predicate Recorded(t: Tree, m: MicroOp) {
    match m
    case Trunc(inode, initialSize, _) => Linked(t.entries, inode) ==> initialSize == |Content(t, inode)|
    case Append(inode, offset, _, _, _) => Linked(t.entries, inode) && offset == |Content(t, inode)|
    case Overwrite(inode, offset, count, _, _) => Linked(t.entries, inode) ==> offset + count <= |Content(t, inode)|
    case Unlink(_, _, inode, size, hardlinks) =>
      size == |Content(t, inode)| && hardlinks == |LinksOf(t.entries, inode)|
    case Rename(_, _, _, destParent, dest, destInode, destSize, destHardlinks) =>
      if (destParent, dest) in t.entries then
        && destInode == t.entries[(destParent, dest)]
        && destSize == |Content(t, destInode)| && destHardlinks == |LinksOf(t.entries, destInode)|
      else destHardlinks == 0
    case SyncFile(inode, size, _) => Linked(t.entries, inode) ==> size == |Content(t, inode)|
    case SyncEverything(synced) =>
      forall n :: n in t.entries ==> (t.entries[n], |Content(t, t.entries[n])|) in synced
    case _ => true
  }

  /** True in the state each micro operation runs in. */
  ghost predicate RecordedRun(t: Tree, ms: seq<MicroOp>) {
    forall k :: 0 <= k < |ms| ==> Recorded(RunRecordedAll(t, ms[..k]), ms[k])
  }

  lemma RecordedConcat(t: Tree, a: seq<MicroOp>, b: seq<MicroOp>)
    requires RecordedRun(t, a) && RecordedRun(RunRecordedAll(t, a), b)
    ensures RecordedRun(t, a + b)
  {
    hide Recorded, RunRecordedAll;
    forall k | 0 <= k < |a + b| ensures Recorded(RunRecordedAll(t, (a + b)[..k]), (a + b)[k]) {
      if k < |a| {
        assert (a + b)[..k] == a[..k];
      } else {
        assert (a + b)[..k] == a + b[..k - |a|];
        RunRecordedConcat(t, a, b[..k - |a|]);
      }
    }
  }

  lemma RecordedOne(t: Tree, m: MicroOp)
    requires Recorded(t, m)
    ensures RecordedRun(t, [m])
  {
    hide Recorded;
    assert [m][..0] == [];
  }

  lemma RecordedSync(t: Tree, osync: bool, inode: int, pos: nat, count: nat)
    ensures RecordedRun(t, SyncIf(osync, inode, pos, count))
  {
    hide RunRecordedAll;
    if osync {
      RecordedOne(t, SyncRange(inode, pos, count));
    }
  }

  lemma RecordedTwo(t: Tree, m: MicroOp, osync: bool, inode: int, pos: nat, count: nat)
    requires Recorded(t, m)
    ensures RecordedRun(t, [m] + SyncIf(osync, inode, pos, count))
  {
    hide Recorded, RunRecordedAll, SyncIf;
    RecordedOne(t, m);
    RecordedSync(RunRecordedAll(t, [m]), osync, inode, pos, count);
    RecordedConcat(t, [m], SyncIf(osync, inode, pos, count));
  }

  lemma OverwriteRun(t: Tree, inode: int, pos: nat, count: nat, file: string, at: nat, osync: bool)
    ensures var size := |Content(t, inode)|;
            var t1 := RunRecordedAll(t, OverwritePart(inode, size, pos, count, file, at, osync));
            |Content(t1, inode)| == size && t1.entries == t.entries
  {
    hide RunRecordedAll, PWrite, OverwritePart, DumpBytes, CompileAll, ReplayAll;
    var size := |Content(t, inode)|;
    OverwritePartEffect(t, Count(1), inode, size, pos, count, file, at, osync);
    CompileAllMeaning(t, Count(1), OverwritePart(inode, size, pos, count, file, at, osync));
  }

  lemma GapRun(t: Tree, inode: int, pos: nat)
    ensures var size := |Content(t, inode)|;
            var t1 := RunRecordedAll(t, GapPart(inode, size, pos));
            |Content(t1, inode)| == Max(size, pos) && t1.entries == t.entries
  {
    hide RunRecordedAll, PWrite, GapPart, Fill, CompileAll, ReplayAll;
    var size := |Content(t, inode)|;
    GapPartEffect(t, Count(1), inode, size, pos);
    CompileAllMeaning(t, Count(1), GapPart(inode, size, pos));
  }

  lemma OverwriteIsRecorded(t: Tree, inode: int, pos: nat, count: nat, file: string, at: nat, osync: bool)
    ensures RecordedRun(t, OverwritePart(inode, |Content(t, inode)|, pos, count, file, at, osync))
  {
    hide RunRecordedAll, SyncIf;
    var size := |Content(t, inode)|;
    if pos < size {
      var o := Overlap(size, pos, count);
      RecordedTwo(t, Overwrite(inode, pos, o, file, at), osync, inode, pos, o);
    }
  }

  lemma GapIsRecorded(t: Tree, inode: int, pos: nat)
    ensures RecordedRun(t, GapPart(inode, |Content(t, inode)|, pos))
  {
    hide RunRecordedAll;
    if pos > |Content(t, inode)| {
      RecordedOne(t, Trunc(inode, |Content(t, inode)|, pos));
    }
  }

  lemma AppendIsRecorded(t: Tree, inode: int, size: nat, pos: nat, count: nat, file: string, at: nat, osync: bool)
    requires Linked(t.entries, inode) && |Content(t, inode)| == Max(size, pos)
    ensures RecordedRun(t, AppendPart(inode, size, pos, count, file, at, osync))
  {
    hide RunRecordedAll, SyncIf, Linked;
    var o := Overlap(size, pos, count);
    if pos + count > Max(size, pos + o) {
      RecordedTwo(t, Append(inode, pos + o, count - o, file, at + o), osync, inode, pos + o, count - o);
    }
  }

  /** A write through a name of the file itself: the gap and the append start at its end. */
  lemma OwnWriteRecorded(t: Tree, inode: int, pos: nat, count: nat, file: string, at: nat, osync: bool)
    requires Linked(t.entries, inode)
    ensures RecordedRun(t, WriteOps(inode, |Content(t, inode)|, pos, count, file, at, osync))
  {
    hide RunRecordedAll, RecordedRun, Linked, OverwritePart, GapPart, AppendPart;
    var size := |Content(t, inode)|;
    var a, b := OverwritePart(inode, size, pos, count, file, at, osync), GapPart(inode, size, pos);
    OverwriteIsRecorded(t, inode, pos, count, file, at, osync);
    OverwriteRun(t, inode, pos, count, file, at, osync);
    var t1 := RunRecordedAll(t, a);
    GapIsRecorded(t1, inode, pos);
    GapRun(t1, inode, pos);
    AppendIsRecorded(RunRecordedAll(t1, b), inode, size, pos, count, file, at, osync);
    RecordedConcat(t, a, b);
    RunRecordedConcat(t, a, b);
    RecordedConcat(t, a + b, AppendPart(inode, size, pos, count, file, at, osync));
  }

  lemma WriteStepRecorded(s: Scratch, w: World, t: Tree, of: OpenFile, pos: nat, count: nat, file: string, at: nat)
    requires Tracks(s, w, t) && count > 0 && of.name in s.entries && of.inode in s.used
      && HarmlessWrite(s, of, pos, count)
    ensures RecordedRun(t, ParseWrite(s, of, pos, count, file, at).value.1)
  {
    hide RunRecordedAll, RecordedRun, SyncIf;
    var seen := s.entries[of.name];
    if seen == of.inode {
      OwnWriteRecorded(t, of.inode, pos, count, file, at, of.osync);
    } else {
      RecordedTwo(t, Overwrite(of.inode, pos, count, file, at), of.osync, of.inode, pos, count);
      assert WriteOps(of.inode, SizeOf(s, seen), pos, count, file, at, of.osync)
        == [Overwrite(of.inode, pos, count, file, at)] + SyncIf(of.osync, of.inode, pos, count);
    }
  }

  lemma StepRecorded(s: Scratch, w: World, t: Tree, c: Call)
    requires Tracks(s, w, t) && Possible(s, c) && Harmless(s, c) && Parse(s, c).Some?
    ensures RecordedRun(t, Parse(s, c).value.1)
  {
    hide RunRecordedAll, WriteOps, LinksOf;
    if (c.WriteCall? || c.PWriteCall?) && c.fd in s.fds {
      WriteStepRecorded(s, w, t, s.fds[c.fd], if c.WriteCall? then s.fds[c.fd].pos else c.pos, c.count, c.file, c.at);
    } else if Parse(s, c).value.1 != [] {
      var m := Parse(s, c).value.1[0];
      OpRecorded(s, w, t, c);
      RecordedOne(t, m);
      assert Parse(s, c).value.1 == [m];
    }
  }

  lemma OpRecorded(s: Scratch, w: World, t: Tree, c: Call)
    requires Tracks(s, w, t) && Possible(s, c) && Parse(s, c).Some? && !c.WriteCall? && !c.PWriteCall?
    requires Parse(s, c).value.1 != []
    ensures Recorded(t, Parse(s, c).value.1[0])
  {
    hide LinksOf, Follows, Known, Agrees, Tracks, RenameOp, Synced, Content;
    SameNames(s, w, t);
    SameSizes(s, w, t);
    if c.RenameCall? {
      RenameIsRecorded(s, t, c.source, c.dest);
    } else if c.SyncAll? {
      SyncCovers(s, w, t, c.walk);
    }
  }

  lemma RenameIsRecorded(s: Scratch, t: Tree, source: Name, dest: Name)
    requires s.entries == t.entries && source in s.entries
    requires forall n :: n in t.entries ==> SizeOf(s, t.entries[n]) == |Content(t, t.entries[n])|
    ensures Recorded(t, RenameOp(s, source, dest))
  {
    hide LinksOf;
  }

  lemma SameSizes(s: Scratch, w: World, t: Tree)
    requires Tracks(s, w, t)
    ensures forall i :: Linked(t.entries, i) ==> SizeOf(s, i) == |Content(t, i)|
    ensures forall n :: n in t.entries ==> SizeOf(s, t.entries[n]) == |Content(t, t.entries[n])|
  {}

  /** sync() flushes every file that has a name, at its true size. */
  lemma SyncCovers(s: Scratch, w: World, t: Tree, walk: seq<(int, nat)>)
    requires Tracks(s, w, t) && Possible(s, SyncAll(walk))
    ensures forall n :: n in t.entries ==> (t.entries[n], |Content(t, t.entries[n])|) in Synced(s, walk)
  {
    forall n | n in t.entries ensures (t.entries[n], |Content(t, t.entries[n])|) in Synced(s, walk) {
      var k :| 0 <= k < |walk| && walk[k].0 == s.entries[n];
      assert Synced(s, walk)[k] == (t.entries[n], |Content(t, t.entries[n])|);
    }
  }

  /** Of every harmless trace: each micro operation records the true sizes, so every truncate and
      every append starts at the true end of its file. */
  lemma {:induction false} ParsedIsRecorded(s: Scratch, w: World, calls: seq<Call>)
    requires Follows(s, w) && PossibleRun(s, calls) && HarmlessRun(s, calls) && ParseAll(s, calls).Some?
    ensures RecordedRun(w.tree, ParseAll(s, calls).value.1)
    decreases |calls|
  {
    if calls == [] {
    } else {
      hide Parse, Posix, Possible, Harmless, RunRecordedAll, Tracks, RecordedRun, Follows;
      var n := |calls| - 1;
      ParsedIsRecorded(s, w, calls[..n]);
      TraceTracks(s, w, calls[..n]);
      var r := ParseAll(s, calls[..n]).value;
      StepRecorded(r.0, PosixAll(w, calls[..n]), RunRecordedAll(w.tree, r.1), calls[n]);
      RecordedConcat(w.tree, r.1, Parse(r.0, calls[n]).value.1);
    }
  }

  lemma RecordedIsEnough(t: Tree, m: MicroOp)
    requires Recorded(t, m) && (m.Trunc? ==> Linked(t.entries, m.inode))
    ensures CompilesExactly(t, m)
  {}

  /** Truncated files still have a name. */
  ghost predicate NamedTruncates(t: Tree, ms: seq<MicroOp>) {
    forall k :: 0 <= k < |ms| && ms[k].Trunc? ==> Linked(RunRecordedAll(t, ms[..k]).entries, ms[k].inode)
  }

  /** With true sizes a program compiles to exactly its own meaning. */
  lemma {:induction false} RecordedCompilesExactly(t: Tree, ms: seq<MicroOp>)
    requires RecordedRun(t, ms) && NamedTruncates(t, ms)
    ensures CompilesExactlyRun(t, ms) && RunAll(t, ms) == RunRecordedAll(t, ms)
    decreases |ms|
  {
    if ms == [] {
    } else {
      hide Recorded, Linked, RunRecorded, Run, CompilesExactly;
      var n := |ms| - 1;
      assert forall k :: 0 <= k <= n ==> ms[..n][..k] == ms[..k];
      RecordedCompilesExactly(t, ms[..n]);
      var t1 := RunAll(t, ms[..n]);
      RecordedIsEnough(t1, ms[n]);
      RecordedIsExact(t1, ms[n]);
    }
  }

  lemma {:induction false} ParsedPrefix(s: Scratch, calls: seq<Call>, n: nat)
    requires n <= |calls| && ParseAll(s, calls).Some?
    ensures ParseAll(s, calls[..n]).Some? && ParseAll(s, calls[..n]).value.1 <= ParseAll(s, calls).value.1
    ensures PossibleRun(s, calls) ==> PossibleRun(s, calls[..n])
    ensures HarmlessRun(s, calls) ==> HarmlessRun(s, calls[..n])
    decreases |calls|
  {
    hide Parse, Possible, Harmless;
    if n == |calls| {
      assert calls[..n] == calls;
    } else {
      var m := |calls| - 1;
      assert calls[..m][..n] == calls[..n];
      ParsedPrefix(s, calls[..m], n);
    }
  }

  lemma OneMoreCall(s: Scratch, w: World, calls: seq<Call>, c: Call)
    requires ParseAll(s, calls).Some?
    ensures var r := ParseAll(s, calls).value;
            var last := Parse(r.0, c);
            && ParseAll(s, calls + [c]) == (if last.None? then None else Some((last.value.0, r.1 + last.value.1)))
            && (PossibleRun(s, calls + [c]) <==> PossibleRun(s, calls) && Possible(r.0, c))
            && (HarmlessRun(s, calls + [c]) <==> HarmlessRun(s, calls) && Harmless(r.0, c))
            && PosixAll(w, calls + [c]) == Posix(PosixAll(w, calls), c)
  {
    hide Parse, Possible, Harmless, Posix;
    assert (calls + [c])[..|calls|] == calls;
  }
}
