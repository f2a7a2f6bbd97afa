/** File contents as sequences of symbolic cells, and the algebra of overlapping writes. */
module Files {
  import opened Ops

  /** A byte by its origin: the initial snapshot, a hole, random filler, or a place in a dump file. */
  datatype Cell = Original(at: nat) | Zero | Junk | Byte(file: string, at: nat)

  type File = seq<Cell>

  function Max(a: nat, b: nat): nat { if a < b then b else a }

  function Min(a: nat, b: nat): nat { if a < b then a else b }

  function Fill(c: Cell, n: nat): (r: File)
    ensures |r| == n && forall k :: 0 <= k < n ==> r[k] == c
  {
    if n == 0 then [] else Fill(c, n - 1) + [c]
  }

  /** The bytes at a position of a dump file. */
  function DumpBytes(file: string, at: nat, n: nat): (r: File)
    ensures |r| == n && forall k :: 0 <= k < n ==> r[k] == Byte(file, at + k)
  {
    if n == 0 then [] else DumpBytes(file, at, n - 1) + [Byte(file, at + n - 1)]
  }

  /** ftruncate: cut, or extend with zeros. */
  function Resize(f: File, size: nat): (r: File)
    ensures |r| == size
  {
    if size <= |f| then f[..size] else f + Fill(Zero, size - |f|)
  }

  function From(f: File, at: nat): File {
    if at < |f| then f[at..] else []
  }

  /** lseek and write: a gap before the offset reads as zeros, writing nothing changes nothing. */
  function PWrite(f: File, offset: nat, data: File): (r: File)
    ensures |r| == if |data| == 0 then |f| else Max(|f|, offset + |data|)
  {
    if |data| == 0 then f else Resize(f, offset) + data + From(f, offset + |data|)
  }

  predicate AllZero(f: File, from: nat, till: nat) {
    forall k :: from <= k < till && k < |f| ==> f[k] == Zero
  }

  /** What a disk write puts into the file. */
  function Payload(data: Data, count: nat): (r: File)
    ensures |r| == count
  {
    match data
    case Zeros => Fill(Zero, count)
    case Garbage => Fill(Junk, count)
    case Dump(file, at) => DumpBytes(file, at, count)
  }

  // ----- algebra -----

  /** Every cell of the result. */
  lemma PWriteAt(f: File, offset: nat, data: File, k: nat)
    requires k < |PWrite(f, offset, data)|
    ensures PWrite(f, offset, data)[k] ==
      if offset <= k < offset + |data| then data[k - offset] else if k < |f| then f[k] else Zero
  {}

  lemma WriteNothing(f: File, offset: nat, data: File)
    requires |data| == 0
    ensures PWrite(f, offset, data) == f
  {}

  lemma OverwriteWins(f: File, offset: nat, a: File, b: File)
    requires |a| == |b|
    ensures PWrite(PWrite(f, offset, a), offset, b) == PWrite(f, offset, b)
  {
    if |a| > 0 {
      var g := PWrite(f, offset, a);
      assert Resize(g, offset) == Resize(f, offset);
      assert From(g, offset + |b|) == From(f, offset + |b|);
    }
  }

  lemma AdjacentWrites(f: File, offset: nat, a: File, b: File)
    ensures PWrite(PWrite(f, offset, a), offset + |a|, b) == PWrite(f, offset, a + b)
  {
    if |a| == 0 {
      assert a + b == b;
    } else if |b| == 0 {
      assert a + b == a;
    } else {
      var g := PWrite(f, offset, a);
      assert Resize(g, offset + |a|) == Resize(f, offset) + a;
      assert From(g, offset + |a| + |b|) == From(f, offset + |a + b|);
      hide Resize, From;
      Reassociate(Resize(f, offset), a, b, From(f, offset + |a + b|));
    }
  }

  lemma Reassociate(w: File, x: File, y: File, z: File)
    ensures ((w + x) + y) + z == (w + (x + y)) + z
  {
    assert (w + x) + y == w + (x + y);
  }

  lemma DumpSplit(file: string, at: nat, n: nat, m: nat)
    ensures DumpBytes(file, at, n) + DumpBytes(file, at + n, m) == DumpBytes(file, at, n + m)
  {}

  lemma FillSplit(c: Cell, n: nat, m: nat)
    ensures Fill(c, n) + Fill(c, m) == Fill(c, n + m)
  {}

  lemma ResizeTwice(f: File, a: nat, b: nat)
    requires b <= a
    ensures Resize(Resize(f, a), b) == Resize(f, b)
  {}
}
