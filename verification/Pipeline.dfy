/** Both ends of the chain: the states the explorer builds from a parsed trace are the file
    systems between the traced calls. */
module Pipeline {
  import opened Replay
  import opened Compiler
  import opened CompilerProof
  import opened Flat
  import opened Legality
  import opened Replayer
  import opened Explorer
  import opened Syscalls
  import opened Parser

  /** The number of micro operations of the first n calls. */
  ghost function OpsAfter(s: Scratch, calls: seq<Call>, n: nat): nat
    requires n <= |calls| && ParseAll(s, calls[..n]).Some?
  {
    |ParseAll(s, calls[..n]).value.1|
  }

  /** After the micro operations of a call the disk holds what the calls so far produced. */
  lemma StateAfterCall(s: Scratch, w: World, calls: seq<Call>, n: nat)
    requires Follows(s, w) && PossibleRun(s, calls) && HarmlessRun(s, calls) && ParseAll(s, calls).Some? && n <= |calls|
    ensures ParseAll(s, calls[..n]).Some? && OpsAfter(s, calls, n) <= |ParseAll(s, calls).value.1|
    ensures Agrees(RunRecordedAll(w.tree, ParseAll(s, calls).value.1[..OpsAfter(s, calls, n)]),
      PosixAll(w, calls[..n]).tree)
  {
    hide PossibleRun, HarmlessRun, RunRecordedAll, PosixAll, ParseAll, Follows, Agrees, Known;
    ParsedPrefix(s, calls, n);
    TraceTracks(s, w, calls[..n]);
    var some, all := ParseAll(s, calls[..n]).value.1, ParseAll(s, calls).value.1;
    assert all[..|some|] == some;
  }

  /** The state the first phase builds at the end of call n, if any disk operation came before. */
  ghost predicate ShowsCall(states: seq<Option<Tree>>, s: Scratch, w: World, calls: seq<Call>, n: nat)
    requires n <= |calls| && ParseAll(s, calls[..n]).Some?
  {
    var k := OpsAfter(s, calls, n);
    k <= |states| && (k > 0 && states[k - 1].Some? ==> Agrees(states[k - 1].value, PosixAll(w, calls[..n]).tree))
  }

  /** The first exploration phase on a parsed trace: all its states are legal, and those at the ends
      of calls are exactly the file systems after these calls. */
  method ExploreTrace(r: Replayer, s: Scratch, w: World, calls: seq<Call>) returns (states: seq<Option<Tree>>)
    requires r.Ready() && NothingOmitted(r.omitted)
    requires Follows(s, w) && PossibleRun(s, calls) && HarmlessRun(s, calls)
    requires ParseAll(s, calls).Some? && r.microOps == ParseAll(s, calls).value.1
    modifies r
    ensures r.Ready() && r.microOps == old(r.microOps) && r.diskOps == old(r.diskOps) && |states| == |r.microOps|
    ensures forall i :: 0 <= i < |states| ==>
      && LegalState(r.microOps, r.diskOps, r.omitted, r.suite.deps, i, |r.diskOps[i]| - 1)
      && (states[i].None? <==> Before(r.diskOps, i + 1) == 0)
    ensures forall n :: 0 <= n <= |calls| ==> ParseAll(s, calls[..n]).Some? && ShowsCall(states, s, w, calls, n)
  {
    hide LegalState, RunRecordedAll, Follows, PossibleRun, HarmlessRun, ParseAll, PosixAll, Agrees;
    states := PrefixStates(r, w.tree);
    forall n | 0 <= n <= |calls| ensures ParseAll(s, calls[..n]).Some? && ShowsCall(states, s, w, calls, n) {
      StateAfterCall(s, w, calls, n);
    }
  }
}
