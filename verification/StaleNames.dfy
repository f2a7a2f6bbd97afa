/** A trace the parser gets wrong: the name a descriptor was opened under moves to another file,
    and the parser takes that file's size for a write to the old one. */
module StaleNames {
  import opened Files
  import opened Replay
  import opened Slices
  import opened Compiler
  import opened CompilerProof
  import opened WritePath
  import opened Syscalls
  import opened Parser

  const A: Name := (1, "a")
  const B: Name := (1, "b")
  const C: Name := (1, "c")

  /** a holds two bytes, c is empty. */
  const SCRATCH := Scratch(map[A := 7, C := 8], map[7 := 2, 8 := 0], map[], {7, 8})
  const TREE := Tree(map[7 := [Original(0), Original(1)]], map[A := 7, C := 8])
  const WORLD := World(TREE, map[])

  const FIRST := Open(3, A, false, false, false, 0)
  const AWAY := RenameCall(A, B)
  const IN := RenameCall(C, A)

  /** One byte at position 2, through the descriptor of what is b by now. */
  const LATE := PWriteCall(3, 1, 2, "d", 0)

  const TRACE: seq<Call> := [] + [FIRST] + [AWAY] + [IN] + [LATE]

  lemma DistinctNames()
    ensures A != B && B != C && A != C
  {
    assert "a"[0] != "b"[0] && "b"[0] != "c"[0] && "a"[0] != "c"[0];
  }

  lemma OpenState()
    ensures Parse(SCRATCH, FIRST) == Some((SCRATCH.(fds := map[3 := OpenFile(A, 7, 0, false)]), []))
  {
    assert SCRATCH.fds[3 := OpenFile(A, 7, 0, false)] == map[3 := OpenFile(A, 7, 0, false)];
  }

  lemma MoveState(s: Scratch, source: Name, dest: Name)
    requires source in s.entries && dest !in s.entries
    ensures Harmless(s, RenameCall(source, dest))
    ensures ParseRename(s, source, dest) ==
      Some((s.(entries := (s.entries - {source})[dest := s.entries[source]]), [RenameOp(s, source, dest)]))
  {}

  /** The first three calls are harmless, and they leave the descriptor with a name of another file. */
  lemma Moved()
    ensures var calls: seq<Call> := [] + [FIRST] + [AWAY] + [IN];
            && PossibleRun(SCRATCH, calls) && HarmlessRun(SCRATCH, calls) && ParseAll(SCRATCH, calls).Some?
            && ParseAll(SCRATCH, calls).value.0 ==
               Scratch(map[A := 8, B := 7], SCRATCH.sizes, map[3 := OpenFile(A, 7, 0, false)], SCRATCH.used)
  {
    DistinctNames();
    OneMoreCall(SCRATCH, WORLD, [], FIRST);
    OpenState();
    var s1 := SCRATCH.(fds := map[3 := OpenFile(A, 7, 0, false)]);
    assert ParseAll(SCRATCH, [] + [FIRST]).value.0 == s1;
    OneMoreCall(SCRATCH, WORLD, [] + [FIRST], AWAY);
    MoveState(s1, A, B);
    var s2 := s1.(entries := map[B := 7, C := 8]);
    assert (s1.entries - {A})[B := 7] == s2.entries;
    assert ParseAll(SCRATCH, [] + [FIRST] + [AWAY]).value.0 == s2;
    OneMoreCall(SCRATCH, WORLD, [] + [FIRST] + [AWAY], IN);
    MoveState(s2, C, A);
    assert (s2.entries - {C})[A := 8] == map[A := 8, B := 7];
  }

  /** The calls themselves only moved names. */
  lemma MovedWorld()
    ensures var w := PosixAll(WORLD, [] + [FIRST] + [AWAY] + [IN]);
            && w.tree.files == TREE.files && w.tree.entries == map[A := 8, B := 7]
            && w.fds == map[3 := OpenFile(A, 7, 0, false)]
  {
    DistinctNames();
    Moved();
    OneMoreCall(SCRATCH, WORLD, [], FIRST);
    var w1 := PosixAll(WORLD, [] + [FIRST]);
    assert w1.tree == TREE && w1.fds == map[3 := OpenFile(A, 7, 0, false)];
    ParsedPrefix();
    OneMoreCall(SCRATCH, WORLD, [] + [FIRST], AWAY);
    OneMoreCall(SCRATCH, WORLD, [] + [FIRST] + [AWAY], IN);
    assert (TREE.entries - {A})[B := 7] == map[B := 7, C := 8];
    assert (map[B := 7, C := 8] - {C})[A := 8] == map[A := 8, B := 7];
  }

  lemma ParsedPrefix()
    ensures ParseAll(SCRATCH, [] + [FIRST]).Some? && ParseAll(SCRATCH, [] + [FIRST] + [AWAY]).Some?
  {
    DistinctNames();
    OneMoreCall(SCRATCH, WORLD, [], FIRST);
    OpenState();
    OneMoreCall(SCRATCH, WORLD, [] + [FIRST], AWAY);
    MoveState(SCRATCH.(fds := map[3 := OpenFile(A, 7, 0, false)]), A, B);
  }

  lemma ZerosOverData()
    ensures WriteResult([Original(0), Original(1)], 0, 2, DumpBytes("d", 0, 1)) == [Zero, Zero, Byte("d", 0)]
    ensures PWrite([Original(0), Original(1)], 2, DumpBytes("d", 0, 1)) == [Original(0), Original(1), Byte("d", 0)]
  {
    assert Fill(Zero, 2) == [Zero, Zero] && DumpBytes("d", 0, 1) == [Byte("d", 0)];
    assert PWrite([Original(0), Original(1)], 0, Fill(Zero, 2)) == [Zero, Zero];
  }

  /** The parser accepts the whole trace, but the late write is not harmless: in every split mode
      the replay ends with zeros where the file system still has the two bytes of b. */
  lemma StaleNameLosesData(mode: Splitting)
    requires Usable(mode)
    ensures Follows(SCRATCH, WORLD) && PossibleRun(SCRATCH, TRACE) && ParseAll(SCRATCH, TRACE).Some?
    ensures !HarmlessRun(SCRATCH, TRACE)
    ensures var disk := ReplayAll(TREE, CompileAll(mode, ParseAll(SCRATCH, TRACE).value.1));
            var called := PosixAll(WORLD, TRACE).tree;
            && disk.entries == called.entries == map[A := 8, B := 7]
            && Content(disk, 7) == [Zero, Zero, Byte("d", 0)]
            && Content(called, 7) == [Original(0), Original(1), Byte("d", 0)]
  {
    hide ReplayAll, CompileAll, RunRecordedAll, WriteOps, WriteResult, PWrite, DumpBytes, ParseAll, PossibleRun,
      HarmlessRun, PosixAll;
    DistinctNames();
    var calls: seq<Call> := [] + [FIRST] + [AWAY] + [IN];
    Moved();
    MovedWorld();
    OneMoreCall(SCRATCH, WORLD, calls, LATE);
    TraceTracks(SCRATCH, WORLD, calls);
    var r, w := ParseAll(SCRATCH, calls).value, PosixAll(WORLD, calls);
    var t := RunRecordedAll(TREE, r.1);
    assert t.entries[B] == 7 && Content(t, 7) == [Original(0), Original(1)];
    WriteRecorded(t, 7, 0, 2, 1, "d", 0, false);
    RunRecordedConcat(TREE, r.1, WriteOps(7, 0, 2, 1, "d", 0, false));
    CompileAllMeaning(TREE, mode, ParseAll(SCRATCH, TRACE).value.1);
    ZerosOverData();
  }
}
