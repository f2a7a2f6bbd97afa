/** System calls on regular files: what the parser makes of each one on its scratch copy of the
    file system, and what the call itself does to the real one. */
module Syscalls {
  import opened Ops
  import opened Files
  import opened Replay
  import opened Compiler
  import opened WritePath

  /** A directory entry: parent inode and name. */
  type Name = (int, string)

  /** An open file: the name it was opened under, its inode, the file position, and O_SYNC. */
  datatype OpenFile = OpenFile(name: Name, inode: int, pos: nat, osync: bool)

  /** The scratch directory (names and sizes; files without a name stay around), the file
      descriptor table, and the inodes of all files seen so far. */
  datatype Scratch = Scratch(entries: map<Name, int>, sizes: map<int, nat>, fds: map<int, OpenFile>, used: set<int>)

  /** sync() comes with the inodes a walk over the scratch directory finds, in its order; the
      number beside each is what stat reports for anything that is not a file. */
  datatype Call =
    | Open(fd: int, name: Name, create: bool, trunc: bool, osync: bool, newInode: int)
    | Close(fd: int)
    | WriteCall(fd: int, count: nat, file: string, at: nat)
    | PWriteCall(fd: int, count: nat, pos: nat, file: string, at: nat)
    | LSeek(fd: int, pos: nat)
    | TruncateCall(name: Name, size: nat)
    | FTruncate(fd: int, size: nat)
    | LinkCall(source: Name, dest: Name)
    | UnlinkCall(name: Name)
    | RenameCall(source: Name, dest: Name)
    | FSync(fd: int, call: SyncCall)
    | SyncAll(walk: seq<(int, nat)>)
    | PrintCall(text: string)

  function SizeOf(s: Scratch, inode: int): nat {
    if inode in s.sizes then s.sizes[inode] else 0
  }

  function LinksOf(entries: map<Name, int>, inode: int): set<Name> {
    set n | n in entries && entries[n] == inode
  }

  predicate Linked(entries: map<Name, int>, inode: int) {
    exists n :: n in entries && entries[n] == inode
  }

  // ----- the parser -----

  type Parsed = Option<(Scratch, seq<MicroOp>)>

  /** Where the parser looks up sizes: by the name the descriptor was opened under. */
  function ParseWrite(s: Scratch, of: OpenFile, pos: nat, count: nat, file: string, at: nat): Parsed {
    if of.name !in s.entries then None
    else
      var seen := s.entries[of.name];
      var size := SizeOf(s, seen);
      Some((s.(sizes := s.sizes[seen := Max(size, pos + count)]),
            WriteOps(of.inode, size, pos, count, file, at, of.osync)))
  }

  function RenameOp(s: Scratch, source: Name, dest: Name): MicroOp
    requires source in s.entries
  {
    var i := s.entries[source];
    if dest in s.entries then
      var j := s.entries[dest];
      Rename(source.0, source.1, i, dest.0, dest.1, j, SizeOf(s, j), |LinksOf(s.entries, j)|)
    else
      Rename(source.0, source.1, i, dest.0, dest.1, 0, 0, 0)
  }

  function ParseRename(s: Scratch, source: Name, dest: Name): Parsed {
    if source !in s.entries then None
    else
      var m := RenameOp(s, source, dest);
      var last := m.destHardlinks == 1;
      if last && (source == dest || exists fd :: fd in s.fds && s.fds[fd].inode == m.destInode) then None
      else if m.destHardlinks >= 1 && m.destInode == m.sourceInode then Some((s, [m]))
      else Some((s.(entries := (s.entries - {source})[dest := m.sourceInode]), [m]))
  }

  /** Every file at the size of its scratch copy. */
  function Synced(s: Scratch, walk: seq<(int, nat)>): (r: seq<(int, nat)>)
    ensures |r| == |walk|
    ensures forall k :: 0 <= k < |walk| ==>
      r[k] == (walk[k].0, if walk[k].0 in s.used then SizeOf(s, walk[k].0) else walk[k].1)
  {
    seq(|walk|, k requires 0 <= k < |walk| =>
      (walk[k].0, if walk[k].0 in s.used then SizeOf(s, walk[k].0) else walk[k].1))
  }

  /** One system call; None where the parser stops with an error. Calls on descriptors that are
      not tracked produce nothing. */
  function Parse(s: Scratch, c: Call): Parsed {
    match c
    case Open(fd, name, create, trunc, osync, newInode) =>
      if fd in s.fds then None
      else if name !in s.entries then
        if !create || exists f :: f in s.fds && s.fds[f].name == name then None
        else Some((Scratch(s.entries[name := newInode], s.sizes[newInode := 0],
                           s.fds[fd := OpenFile(name, newInode, 0, osync)], s.used + {newInode}),
                   [Creat(name.0, name.1, newInode)]))
      else
        var inode := s.entries[name];
        var s1 := s.(fds := s.fds[fd := OpenFile(name, inode, 0, osync)]);
        if trunc then Some((s1.(sizes := s.sizes[inode := 0]), [Trunc(inode, SizeOf(s, inode), 0)]))
        else Some((s1, []))
    case Close(fd) => Some((s.(fds := s.fds - {fd}), []))
    case WriteCall(fd, count, file, at) =>
      if fd !in s.fds then Some((s, []))
      else
        var of := s.fds[fd];
        var r := ParseWrite(s, of, of.pos, count, file, at);
        if r.None? then None
        else Some((r.value.0.(fds := s.fds[fd := of.(pos := of.pos + count)]), r.value.1))
    case PWriteCall(fd, count, pos, file, at) =>
      if fd !in s.fds then Some((s, [])) else ParseWrite(s, s.fds[fd], pos, count, file, at)
    case LSeek(fd, pos) =>
      if fd !in s.fds then Some((s, [])) else Some((s.(fds := s.fds[fd := s.fds[fd].(pos := pos)]), []))
    case TruncateCall(name, size) =>
      if name !in s.entries then None
      else
        var inode := s.entries[name];
        Some((s.(sizes := s.sizes[inode := size]), [Trunc(inode, SizeOf(s, inode), size)]))
    case FTruncate(fd, size) =>
      if fd !in s.fds then Some((s, []))
      else
        var of := s.fds[fd];
        if of.name !in s.entries then None
        else Some((s.(sizes := s.sizes[s.entries[of.name] := size]), [Trunc(of.inode, SizeOf(s, of.inode), size)]))
    case LinkCall(source, dest) =>
      if source !in s.entries || dest in s.entries then None
      else Some((s.(entries := s.entries[dest := s.entries[source]]), [Link(dest.0, dest.1, s.entries[source])]))
    case UnlinkCall(name) =>
      if name !in s.entries then None
      else
        var inode := s.entries[name];
        Some((s.(entries := s.entries - {name}),
              [Unlink(name.0, name.1, inode, SizeOf(s, inode), |LinksOf(s.entries, inode)|)]))
    case RenameCall(source, dest) => ParseRename(s, source, dest)
    case FSync(fd, call) =>
      if fd !in s.fds then Some((s, []))
      else Some((s, [SyncFile(s.fds[fd].inode, SizeOf(s, s.fds[fd].inode), call)]))
    case SyncAll(walk) => Some((s, [SyncEverything(Synced(s, walk))]))
    case PrintCall(text) => Some((s, [Print(text)]))
  }

  function ParseAll(s: Scratch, calls: seq<Call>): Parsed {
    if calls == [] then Some((s, []))
    else
      var r := ParseAll(s, calls[..|calls| - 1]);
      if r.None? then None
      else
        var last := Parse(r.value.0, calls[|calls| - 1]);
        if last.None? then None else Some((last.value.0, r.value.1 + last.value.1))
  }

  /** Some descriptor is open on the file. */
  predicate IsOpen(s: Scratch, inode: int) {
    exists fd :: fd in s.fds && s.fds[fd].inode == inode
  }

  /** What the parser puts up with: descriptors are used once at a time; a file is only created on
      request, and under a name no descriptor remembers; names exist where they are needed, also
      those of descriptors that are written or resized; and no rename takes the last name of an open
      file or of its own source. */
  predicate Accepts(s: Scratch, c: Call) {
    match c
    case Open(fd, name, create, _, _, _) =>
      && fd !in s.fds
      && (name !in s.entries ==> create && forall f :: f in s.fds ==> s.fds[f].name != name)
    case WriteCall(fd, _, _, _) => fd in s.fds ==> s.fds[fd].name in s.entries
    case PWriteCall(fd, _, _, _, _) => fd in s.fds ==> s.fds[fd].name in s.entries
    case FTruncate(fd, _) => fd in s.fds ==> s.fds[fd].name in s.entries
    case TruncateCall(name, _) => name in s.entries
    case LinkCall(source, dest) => source in s.entries && dest !in s.entries
    case UnlinkCall(name) => name in s.entries
    case RenameCall(source, dest) =>
      && source in s.entries
      && (dest in s.entries && LinksOf(s.entries, s.entries[dest]) == {dest} ==>
          source != dest && !IsOpen(s, s.entries[dest]))
    case _ => true
  }

  lemma OnlyLink(entries: map<Name, int>, name: Name)
    requires name in entries
    ensures |LinksOf(entries, entries[name])| == 1 <==> LinksOf(entries, entries[name]) == {name}
  {
    var links := LinksOf(entries, entries[name]);
    assert name in links;
    assert links == (links - {name}) + {name};
  }

  /** The parser stops exactly at the calls it does not put up with. */
  lemma ParserAccepts(s: Scratch, c: Call)
    ensures Parse(s, c).Some? <==> Accepts(s, c)
  {
    hide LinksOf, WriteOps;
    if c.RenameCall? && c.source in s.entries && c.dest in s.entries {
      OnlyLink(s.entries, c.dest);
    }
  }

  // ----- the calls themselves -----

  /** The real file system: contents and names, and the descriptor table. A file that lost its
      last name keeps its contents for the descriptors that are still open. */
  datatype World = World(tree: Tree, fds: map<int, OpenFile>)

  function Posix(w: World, c: Call): World {
    var t := w.tree;
    match c
    case Open(fd, name, create, trunc, osync, newInode) =>
      if name !in t.entries then
        World(t.(entries := t.entries[name := newInode]), w.fds[fd := OpenFile(name, newInode, 0, osync)])
      else
        var inode := t.entries[name];
        World(if trunc then SetContent(t, inode, []) else t, w.fds[fd := OpenFile(name, inode, 0, osync)])
    case Close(fd) => w.(fds := w.fds - {fd})
    case WriteCall(fd, count, file, at) =>
      if fd !in w.fds then w
      else
        var of := w.fds[fd];
        World(WriteTo(t, of.inode, of.pos, DumpBytes(file, at, count)), w.fds[fd := of.(pos := of.pos + count)])
    case PWriteCall(fd, count, pos, file, at) =>
      if fd !in w.fds then w else w.(tree := WriteTo(t, w.fds[fd].inode, pos, DumpBytes(file, at, count)))
    case LSeek(fd, pos) =>
      if fd !in w.fds then w else w.(fds := w.fds[fd := w.fds[fd].(pos := pos)])
    case TruncateCall(name, size) =>
      if name !in t.entries then w else w.(tree := Resized(t, t.entries[name], size))
    case FTruncate(fd, size) =>
      if fd !in w.fds then w else w.(tree := Resized(t, w.fds[fd].inode, size))
    case LinkCall(source, dest) =>
      if source !in t.entries then w else w.(tree := t.(entries := t.entries[dest := t.entries[source]]))
    case UnlinkCall(name) => w.(tree := t.(entries := t.entries - {name}))
    case RenameCall(source, dest) =>
      if source !in t.entries then w else w.(tree := Renamed(t, source, dest))
    case FSync(_, _) => w
    case SyncAll(_) => w
    case PrintCall(_) => w
  }

  function Resized(t: Tree, inode: int, size: nat): Tree {
    SetContent(t, inode, Resize(Content(t, inode), size))
  }

  /** rename(): nothing happens between two names of one file, otherwise the target is replaced. */
  function Renamed(t: Tree, source: Name, dest: Name): Tree
    requires source in t.entries
  {
    if dest in t.entries && t.entries[dest] == t.entries[source] then t
    else t.(entries := (t.entries - {source})[dest := t.entries[source]])
  }

  function PosixAll(w: World, calls: seq<Call>): World {
    if calls == [] then w else Posix(PosixAll(w, calls[..|calls| - 1]), calls[|calls| - 1])
  }

  // ----- what a trace looks like -----

  /** What the kernel and the walk guarantee: fresh inode numbers, and no linked file is missed.
      Empty writes are not part of the model. */
  predicate Possible(s: Scratch, c: Call) {
    match c
    case Open(_, name, _, _, _, newInode) => name !in s.entries ==> newInode !in s.used
    case WriteCall(_, count, _, _) => count > 0
    case PWriteCall(_, count, _, _, _) => count > 0
    case SyncAll(walk) => forall n :: n in s.entries ==> exists k :: 0 <= k < |walk| && walk[k].0 == s.entries[n]
    case _ => true
  }

  /** A write through a name that by now belongs to another file does no harm exactly when it
      stays inside both files. */
  predicate HarmlessWrite(s: Scratch, of: OpenFile, pos: nat, count: nat) {
    of.name in s.entries ==>
      var seen := s.entries[of.name];
      seen == of.inode || (pos + count <= SizeOf(s, seen) && pos + count <= SizeOf(s, of.inode))
  }

  predicate HarmlessResize(s: Scratch, of: OpenFile, size: nat) {
    of.name in s.entries ==>
      var seen := s.entries[of.name];
      seen == of.inode || size == SizeOf(s, seen) == SizeOf(s, of.inode)
  }

  /** The calls the parser gets right, told from its own state before the call. */
  predicate Harmless(s: Scratch, c: Call) {
    match c
    case WriteCall(fd, count, _, _) => fd in s.fds ==> HarmlessWrite(s, s.fds[fd], s.fds[fd].pos, count)
    case PWriteCall(fd, count, pos, _, _) => fd in s.fds ==> HarmlessWrite(s, s.fds[fd], pos, count)
    case FTruncate(fd, size) => fd in s.fds ==> HarmlessResize(s, s.fds[fd], size)
    case RenameCall(source, dest) =>
      source in s.entries && dest in s.entries && source != dest ==> s.entries[source] != s.entries[dest]
    case _ => true
  }

  /** Every call is possible in the state the parser is in. */
  predicate PossibleRun(s: Scratch, calls: seq<Call>) {
    calls == [] ||
    var before := calls[..|calls| - 1];
    PossibleRun(s, before) && (ParseAll(s, before).Some? ==> Possible(ParseAll(s, before).value.0, calls[|calls| - 1]))
  }

  predicate HarmlessRun(s: Scratch, calls: seq<Call>) {
    calls == [] ||
    var before := calls[..|calls| - 1];
    HarmlessRun(s, before) && (ParseAll(s, before).Some? ==> Harmless(ParseAll(s, before).value.0, calls[|calls| - 1]))
  }
}
