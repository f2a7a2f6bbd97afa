/** The tracer writes one line per system call and dumps the bytes of every write call; the
    parser counts through the lines to find each call's bytes in the dump again. */
module DumpLog {

  type Bytes = seq<nat>

  datatype Kind = WriteK | WriteVK | PWriteK | PWriteVK | OtherK

  /** A traced call: its buffers (one, or the iovec), the file position of the p-variants, and
      whether the call returned while being traced. */
  datatype Traced = Traced(kind: Kind, fd: nat, buffers: seq<Bytes>, pos: nat, finished: bool)

  /** Numbers keep their value; everything else on a line is text. */
  datatype Arg = Num(value: nat) | Text

  datatype Line = Line(kind: Kind, args: seq<Arg>, finished: bool)

  function Joined(buffers: seq<Bytes>): Bytes {
    if buffers == [] then [] else Joined(buffers[..|buffers| - 1]) + buffers[|buffers| - 1]
  }

  function Data(c: Traced): Bytes {
    if c.kind == OtherK then [] else Joined(c.buffers)
  }

  predicate WellFormed(c: Traced) {
    c.kind in {WriteK, PWriteK} ==> |c.buffers| == 1
  }

  /** What the decoders print. */
  function LineOf(c: Traced): Line {
    var size := Num(|Data(c)|);
    Line(c.kind,
      match c.kind
      case WriteK => [Num(c.fd), Text, size]
      case WriteVK => [Num(c.fd), Text, Num(|c.buffers|), size]
      case PWriteK => [Num(c.fd), Text, size, Num(c.pos)]
      case PWriteVK => [Num(c.fd), Text, Num(|c.buffers|), Num(c.pos), size]
      case OtherK => [],
      c.finished)
  }

  /** The bytes dumped by the calls of a trace. */
  function Dumped(calls: seq<Traced>): Bytes {
    if calls == [] then [] else Dumped(calls[..|calls| - 1]) + Data(calls[|calls| - 1])
  }

  function Lines(calls: seq<Traced>): (lines: seq<Line>)
    ensures |lines| == |calls|
    ensures forall i :: 0 <= i < |calls| ==> lines[i] == LineOf(calls[i])
  {
    if calls == [] then [] else Lines(calls[..|calls| - 1]) + [LineOf(calls[|calls| - 1])]
  }

  // ----- the tracer -----

  class Tracer {
    var log: seq<Line>
    var dump: Bytes

    constructor ()
      ensures log == [] && dump == []
    {
      log, dump := [], [];
    }

    /** dump_iov: dumps every buffer and returns the total. */
    method DumpIov(buffers: seq<Bytes>) returns (total: nat)
      modifies this`dump
      ensures dump == old(dump) + Joined(buffers) && total == |Joined(buffers)|
    {
      total := 0;
      for i := 0 to |buffers|
        invariant dump == old(dump) + Joined(buffers[..i]) && total == |Joined(buffers[..i])|
      {
        assert buffers[..i + 1][..i] == buffers[..i];
        dump := dump + buffers[i];
        total := total + |buffers[i]|;
      }
      assert buffers[..|buffers|] == buffers;
    }

    /** sys_write, sys_writev, sys_pwrite and sys_pwritev on entry to the call. */
    method Trace(c: Traced)
      requires WellFormed(c)
      modifies this
      ensures log == old(log) + [LineOf(c)] && dump == old(dump) + Data(c)
    {
      var args: seq<Arg> := [];
      match c.kind {
        case WriteK =>
          assert Joined(c.buffers) == Joined(c.buffers[..0]) + c.buffers[0];
          dump := dump + c.buffers[0];
          args := [Num(c.fd), Text, Num(|c.buffers[0]|)];
        case PWriteK =>
          assert Joined(c.buffers) == Joined(c.buffers[..0]) + c.buffers[0];
          dump := dump + c.buffers[0];
          args := [Num(c.fd), Text, Num(|c.buffers[0]|), Num(c.pos)];
        case WriteVK =>
          var total := DumpIov(c.buffers);
          args := [Num(c.fd), Text, Num(|c.buffers|), Num(total)];
        case PWriteVK =>
          var total := DumpIov(c.buffers);
          args := [Num(c.fd), Text, Num(|c.buffers|), Num(c.pos), Num(total)];
        case OtherK =>
      }
      log := log + [Line(c.kind, args, c.finished)];
    }

    method TraceAll(calls: seq<Traced>)
      requires log == [] && dump == [] && forall i :: 0 <= i < |calls| ==> WellFormed(calls[i])
      modifies this
      ensures log == Lines(calls) && dump == Dumped(calls)
    {
      for i := 0 to |calls|
        invariant log == Lines(calls[..i]) && dump == Dumped(calls[..i])
      {
        assert calls[..i + 1][..i] == calls[..i];
        Trace(calls[i]);
      }
      assert calls[..|calls|] == calls;
    }
  }

  // ----- the parser -----

  /** The dump position the parser has reached after n calls: lines of unfinished calls do not parse. */
  function Offset(calls: seq<Traced>, n: nat): nat
    requires n <= |calls|
  {
    if n == 0 then 0 else Offset(calls, n - 1) + if calls[n - 1].finished then |Data(calls[n - 1])| else 0
  }

  predicate Sized(line: Line) {
    line.kind != OtherK && |line.args| >= 2
    && (if line.kind == PWriteK then line.args[|line.args| - 2] else line.args[|line.args| - 1]).Num?
  }

  function WriteSize(line: Line): nat
    requires Sized(line)
  {
    (if line.kind == PWriteK then line.args[|line.args| - 2] else line.args[|line.args| - 1]).value
  }

  lemma SizeOnLine(c: Traced)
    ensures LineOf(c).kind == c.kind && LineOf(c).finished == c.finished
    ensures c.kind == OtherK ==> Data(c) == []
    ensures c.kind != OtherK ==> Sized(LineOf(c)) && WriteSize(LineOf(c)) == |Data(c)|
  {}

  /** Where the parser finds the descriptor, the byte count, and the position of the p-variants. */
  function ParsedFd(line: Line): Arg
    requires |line.args| > 0
  {
    line.args[0]
  }

  function ParsedCount(line: Line): Arg
    requires |line.args| >= 3 && (line.kind == WriteVK ==> |line.args| >= 4)
      && (line.kind == PWriteVK ==> |line.args| >= 5)
  {
    match line.kind
    case WriteVK => line.args[3]
    case PWriteVK => line.args[4]
    case _ => line.args[2]
  }

  function ParsedPos(line: Line): Arg
    requires line.kind in {PWriteK, PWriteVK} && |line.args| >= 4
  {
    line.args[3]
  }

  /** What the tracer prints about a write call the parser reads back. */
  lemma LineRoundTrip(c: Traced)
    requires c.kind != OtherK
    ensures |LineOf(c).args| >= 3 && ParsedFd(LineOf(c)) == Num(c.fd)
    ensures ParsedCount(LineOf(c)) == Num(|Data(c)|)
    ensures c.kind in {PWriteK, PWriteVK} ==> ParsedPos(LineOf(c)) == Num(c.pos)
  {}

  /** get_micro_ops: the size is the last number of the line, or the last but one for pwrite. */
  method AssignOffsets(lines: seq<Line>, ghost calls: seq<Traced>) returns (offsets: seq<nat>)
    requires lines == Lines(calls)
    ensures |offsets| == |calls| && forall i :: 0 <= i < |calls| ==> offsets[i] == Offset(calls, i)
  {
    hide LineOf, Data, Sized, WriteSize;
    offsets := [];
    var dumpOffset := 0;
    for i := 0 to |lines|
      invariant |offsets| == i && dumpOffset == Offset(calls, i)
      invariant forall k :: 0 <= k < i ==> offsets[k] == Offset(calls, k)
    {
      var line := lines[i];
      SizeOnLine(calls[i]);
      offsets := offsets + [dumpOffset];
      if line.finished && line.kind != OtherK {
        dumpOffset := dumpOffset + WriteSize(line);
      }
    }
  }

  // ----- agreement -----

  lemma {:induction false} DumpedPrefix(calls: seq<Traced>, n: nat)
    requires n <= |calls|
    ensures Dumped(calls[..n]) <= Dumped(calls)
    decreases |calls|
  {
    if n == |calls| {
      assert calls[..n] == calls;
    } else {
      var m := |calls| - 1;
      DumpedPrefix(calls[..m], n);
      assert calls[..m][..n] == calls[..n];
    }
  }

  ghost predicate Aligned(calls: seq<Traced>) {
    forall i :: 0 <= i < |calls| && calls[i].finished ==> Offset(calls, i) == |Dumped(calls[..i])|
  }

  /** No call that never returned left bytes in front of one that did. */
  ghost predicate NoLostBytes(calls: seq<Traced>) {
    forall j, i :: 0 <= j < i < |calls| && calls[i].finished && !calls[j].finished ==> Data(calls[j]) == []
  }

  /** None of the first n calls dumped bytes without returning. */
  ghost predicate NothingLost(calls: seq<Traced>, n: nat)
    requires n <= |calls|
  {
    forall j :: 0 <= j < n && !calls[j].finished ==> Data(calls[j]) == []
  }

  lemma NothingYet(calls: seq<Traced>)
    ensures |Dumped(calls[..0])| == 0 && NothingLost(calls, 0)
  {}

  lemma NothingLostStep(calls: seq<Traced>, n: nat)
    requires n < |calls|
    ensures NothingLost(calls, n + 1) <==> NothingLost(calls, n) && (calls[n].finished || |Data(calls[n])| == 0)
  {
    hide Data;
  }

  lemma DumpedStep(calls: seq<Traced>, n: nat)
    requires n < |calls|
    ensures Dumped(calls[..n + 1]) == Dumped(calls[..n]) + Data(calls[n])
  {
    hide Data;
    assert calls[..n + 1][..n] == calls[..n];
  }

  lemma {:induction false} OffsetBound(calls: seq<Traced>, n: nat)
    requires n <= |calls|
    ensures Offset(calls, n) <= |Dumped(calls[..n])|
  {
    hide Data, Dumped;
    if n == 0 {
      NothingYet(calls);
    } else {
      OffsetBound(calls, n - 1);
      DumpedStep(calls, n - 1);
    }
  }

  lemma {:induction false} OffsetExact(calls: seq<Traced>, n: nat)
    requires n <= |calls|
    ensures Offset(calls, n) == |Dumped(calls[..n])| <==> NothingLost(calls, n)
  {
    hide Data, Dumped, NothingLost;
    if n == 0 {
      NothingYet(calls);
    } else {
      OffsetExact(calls, n - 1);
      OffsetBound(calls, n - 1);
      DumpedStep(calls, n - 1);
      NothingLostStep(calls, n - 1);
    }
  }

  /** The parser finds every finished call's bytes if and only if no unfinished call dumped bytes before one. */
  lemma OffsetsAgree(calls: seq<Traced>)
    ensures Aligned(calls) <==> NoLostBytes(calls)
  {
    hide Data, Dumped, Offset;
    forall i | 0 <= i < |calls| ensures Offset(calls, i) == |Dumped(calls[..i])| <==> NothingLost(calls, i) {
      OffsetExact(calls, i);
    }
    if Aligned(calls) {
      forall j, i | 0 <= j < i < |calls| && calls[i].finished && !calls[j].finished ensures Data(calls[j]) == [] {
        assert NothingLost(calls, i);
      }
    } else {
      var i :| 0 <= i < |calls| && calls[i].finished && Offset(calls, i) != |Dumped(calls[..i])|;
      assert !NothingLost(calls, i);
    }
  }

  /** Reading a finished call's size at its offset returns exactly its bytes. */
  lemma ReadBack(calls: seq<Traced>, i: nat)
    requires i < |calls| && NoLostBytes(calls) && calls[i].finished
    ensures var at, n := Offset(calls, i), |Data(calls[i])|;
            at + n <= |Dumped(calls)| && Dumped(calls)[at..at + n] == Data(calls[i])
  {
    hide Data, Offset;
    OffsetExact(calls, i);
    DumpedPrefix(calls, i + 1);
    DumpedStep(calls, i);
    var before, mine := Dumped(calls[..i]), Data(calls[i]);
    assert Dumped(calls[..i + 1]) == before + mine;
    assert Dumped(calls)[..|before + mine|] == before + mine;
    assert (before + mine)[|before|..] == mine;
    assert Dumped(calls)[|before|..|before + mine|] == Dumped(calls)[..|before + mine|][|before|..];
  }

  /** One byte of a call that never returned, and the next call reads it instead of its own. */
  lemma LostByteShiftsTheRest()
    ensures var calls := [Traced(WriteK, 3, [[11]], 0, false), Traced(WriteK, 3, [[22]], 0, true)];
            var at, n := Offset(calls, 1), |Data(calls[1])|;
            && !NoLostBytes(calls) && at + n <= |Dumped(calls)|
            && Dumped(calls)[at..at + n] == [11] && Data(calls[1]) == [22]
  {
    var first, second := Traced(WriteK, 3, [[11]], 0, false), Traced(WriteK, 3, [[22]], 0, true);
    var calls := [first, second];
    assert Data(first) == [11] && Data(second) == [22];
    assert calls[..0] == [] && calls[..1] == [first];
    DumpedStep(calls, 0);
    DumpedStep(calls, 1);
    assert calls[..2] == calls;
    assert Dumped(calls) == [11, 22];
    assert !calls[0].finished && calls[1].finished;
  }
}
