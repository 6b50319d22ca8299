/** The handshake between the main thread and the audio thread of SeamGraph, as a state machine in
    which every atomic load or store is one step. Changing or iterating audioNodes is not atomic: it
    begins in one step and ends in another, so that an overlap of the two threads shows as a state.

    `waits` says whether NewGraph is compiled with the wait for the audio thread
    (BUILD_AUDIO_ANALYSIS). The main result, SafeIffNewGraphWaits, is that the protocol is safe over
    all interleavings exactly then. */
module AudioHandshake {
  import opened Lists

  type Node = nat

  /** What the main thread is asked to do: CreateAndAdd or DeleteNode of an audio node, NewGraph. */
  datatype Op = Create(n: Node) | Delete(n: Node) | New

  datatype MainPc =
    | Idle
    | StoreLock(op: Op)        // audioLock.store(true)
    | Spin(op: Op)             // while processingAudio.load()
    | Change(op: Op)           // audioNodes.push_back, Erase or clear is in progress
    | StoreClear               // clearAudioNodes.store(true)
    | AwaitClear               // while clearAudioNodes.load()
    | DeleteNodes              // the loop that deletes every node
    | Unlock(op: Op)           // audioLock.store(false)
    | Free(n: Node)            // delete node, after the lock was given up

  datatype AudioPc =
    | Outside                  // between two calls of ProcessAudio
    | LoadClear                // if clearAudioNodes.load()
    | Clearing                 // audioNodes.clear() is in progress
    | ResetClear               // clearAudioNodes.store(false)
    | StoreProcessing          // processingAudio.store(true)
    | LoadLock                 // if audioLock.load()
    | BailOut                  // processingAudio.store(false); return
    | Iterate(i: nat)          // the loop over audioNodes is about to visit index i
    | Process(i: nat, n: Node) // n->ProcessAudio(buffer) is running
    | StoreDone                // processingAudio.store(false)

  datatype State = State(
    audioLock: bool, processingAudio: bool, clearAudioNodes: bool,
    audioNodes: seq<Node>,
    live: set<Node>,           // audio nodes that exist
    destructing: bool,
    main: MainPc, audio: AudioPc)

  /** The flags are taken to start false; their declarations (seamGraph.h:143-145) do not say so. */
  ghost predicate Init(s: State) {
    s == State(false, false, false, [], {}, false, Idle, Outside)
  }

  function Changed(s: State, op: Op): seq<Node> {
    match op
    case Create(n) => s.audioNodes + [n]
    case Delete(n) => Erase(s.audioNodes, n)
    case New => []
  }

  ghost predicate MainStep(waits: bool, s: State, s': State) {
    match s.main
    case Idle =>
      || (exists n :: n !in s.live && !s.destructing && s' == s.(live := s.live + {n}, main := StoreLock(Create(n))))
      || (exists n :: n in s.live && !s.destructing && s' == s.(main := StoreLock(Delete(n))))
      || (!s.destructing && s' == s.(main := StoreLock(New)))
      || (!s.destructing && s' == s.(destructing := true, main := StoreLock(New)))
    case StoreLock(op) => s' == s.(audioLock := true, main := Spin(op))
    case Spin(op) =>
      if s.processingAudio then s' == s
      else s' == s.(main := if op.New? && !s.destructing then StoreClear else Change(op))
    case Change(op) =>
      s' == s.(audioNodes := Changed(s, op), main := if op.New? then DeleteNodes else Unlock(op))
    case StoreClear =>
      s' == s.(clearAudioNodes := true, main := if waits then AwaitClear else DeleteNodes)
    case AwaitClear =>
      if s.clearAudioNodes then s' == s else s' == s.(main := DeleteNodes)
    case DeleteNodes =>
      if s.live == {} then s' == s.(main := Unlock(New))
      else exists n :: n in s.live && s' == s.(live := s.live - {n})
    case Unlock(op) =>
      s' == s.(audioLock := false, main := if op.Delete? then Free(op.n) else Idle)
    case Free(n) => s' == s.(live := s.live - {n}, main := Idle)
  }

  /** The audio thread is deterministic. */
  function AudioNext(s: State): State {
    match s.audio
    case Outside => s.(audio := LoadClear)
    case LoadClear => s.(audio := if s.clearAudioNodes then Clearing else StoreProcessing)
    case Clearing => s.(audioNodes := [], audio := ResetClear)
    case ResetClear => s.(clearAudioNodes := false, audio := StoreProcessing)
    case StoreProcessing => s.(processingAudio := true, audio := LoadLock)
    case LoadLock => s.(audio := if s.audioLock then BailOut else Iterate(0))
    case BailOut => s.(processingAudio := false, audio := Outside)
    case Iterate(i) => s.(audio := if i < |s.audioNodes| then Process(i, s.audioNodes[i]) else StoreDone)
    case Process(i, n) => s.(audio := Iterate(i + 1))
    case StoreDone => s.(processingAudio := false, audio := Outside)
  }

  ghost predicate Next(waits: bool, s: State, s': State) {
    MainStep(waits, s, s') || s' == AudioNext(s)
  }

  ghost predicate StepAt(waits: bool, run: seq<State>, j: nat)
    requires 0 < j < |run|
  {
    Next(waits, run[j - 1], run[j])
  }

  ghost predicate IsRun(waits: bool, run: seq<State>) {
    && run != [] && Init(run[0])
    && forall j {:trigger StepAt(waits, run, j)} :: 0 < j < |run| ==> StepAt(waits, run, j)
  }

  // ----- safety

  /** The main thread is changing audioNodes. */
  predicate MainChanges(s: State) { s.main.Change? }

  /** The audio thread is changing or iterating audioNodes. */
  predicate AudioUses(s: State) {
    s.audio.Clearing? || s.audio.Iterate? || s.audio.Process?
  }

  /** No overlap on audioNodes, and ProcessAudio runs on existing nodes only. */
  predicate Safe(s: State) {
    && !(MainChanges(s) && AudioUses(s))
    && (s.audio.Process? ==> s.audio.n in s.live)
  }

  // ----- the invariant

  predicate LockHeld(pc: MainPc) {
    pc.Spin? || Critical(pc)
  }

  /** Past the wait in LockAudio, before the unlock. */
  predicate Critical(pc: MainPc) {
    pc.Change? || pc.StoreClear? || pc.AwaitClear? || pc.DeleteNodes? || pc.Unlock?
  }

  predicate Announced(pc: AudioPc) {
    pc.LoadLock? || pc.BailOut? || pc.Iterate? || pc.Process? || pc.StoreDone?
  }

  predicate FlagsInv(s: State) {
    && (s.audioLock <==> LockHeld(s.main))
    && (s.processingAudio <==> Announced(s.audio))
    && (Critical(s.main) ==> !s.audio.Iterate? && !s.audio.Process? && !s.audio.StoreDone?)
    // a pending clear keeps the main thread in its wait
    && (s.clearAudioNodes ==> s.main.AwaitClear?)
    && (s.audio.Clearing? || s.audio.ResetClear? ==> s.clearAudioNodes)
    && (s.main.Change? && s.main.op.New? ==> s.destructing)
  }

  ghost predicate ListInv(s: State) {
    // until the list is empty
    && (s.audio.ResetClear? ==> s.audioNodes == [])
    && (s.main.AwaitClear? && !s.clearAudioNodes ==> s.audioNodes == [])
    && (s.main.DeleteNodes? || (s.main.Unlock? && s.main.op.New?) ==> s.audioNodes == [])
    // the list holds existing nodes, each once
    && Distinct(s.audioNodes) && (forall n :: n in s.audioNodes ==> n in s.live)
    && (s.audio.Process? ==> s.audio.i < |s.audioNodes| && s.audioNodes[s.audio.i] == s.audio.n)
    // a node being added is not listed yet, a node being deleted no longer
    && ((s.main.StoreLock? || s.main.Spin? || s.main.Change?) && s.main.op.Create? ==>
      s.main.op.n in s.live && s.main.op.n !in s.audioNodes)
    && (s.main.Unlock? && s.main.op.Delete? ==> s.main.op.n !in s.audioNodes)
    && (s.main.Free? ==> s.main.n !in s.audioNodes)
  }

  ghost predicate Inv(s: State) { FlagsInv(s) && ListInv(s) }

  lemma MainKeepsFlags(s: State, s': State)
    requires FlagsInv(s) && MainStep(true, s, s')
    ensures FlagsInv(s')
  {
  }

  lemma MainKeepsList(s: State, s': State)
    requires Inv(s) && MainStep(true, s, s')
    ensures ListInv(s')
  {
    match s.main
    case Change(op) =>
      if op.Delete? { EraseFromDistinct(s.audioNodes, op.n); }
    case _ =>
  }

  lemma AudioKeepsInv(s: State)
    requires Inv(s)
    ensures Inv(AudioNext(s))
  {
  }

  lemma InvKept(s: State, s': State)
    requires Inv(s) && Next(true, s, s')
    ensures Inv(s')
  {
    if MainStep(true, s, s') {
      MainKeepsFlags(s, s');
      MainKeepsList(s, s');
    } else {
      AudioKeepsInv(s);
    }
  }

  lemma {:induction false} InvAlways(run: seq<State>, k: nat)
    requires IsRun(true, run) && k < |run|
    ensures Inv(run[k])
  {
    if k > 0 {
      InvAlways(run, k - 1);
      assert StepAt(true, run, k);
      InvKept(run[k - 1], run[k]);
    }
  }

  // ----- every audio node is listed

  /** A node whose creation or deletion is under way, or NewGraph is between clearing and deleting. */
  predicate InTransit(s: State, n: Node) {
    || ((s.main.StoreLock? || s.main.Spin? || s.main.Change?) && s.main.op == Create(n))
    || s.main == Unlock(Delete(n)) || s.main == Free(n)
    || s.main.AwaitClear? || s.main.DeleteNodes?
  }

  ghost predicate AllListed(s: State) {
    forall n :: n in s.live && !InTransit(s, n) ==> n in s.audioNodes
  }

  /** What a change of the list does: a new node joins at the end, a deleted one leaves its place, the
      others keep their order, and NewGraph leaves nothing. */
  lemma ChangeMeans(waits: bool, s: State, s': State)
    requires MainStep(waits, s, s')
    ensures s.main.Change? ==>
      && (s.main.op.Create? ==> s'.audioNodes == s.audioNodes + [s.main.op.n])
      && (s.main.op.Delete? ==> TakenOut(s.audioNodes, s'.audioNodes, s.main.op.n))
      && (s.main.op.New? ==> s'.audioNodes == [])
    ensures !s.main.Change? ==> s'.audioNodes == s.audioNodes
  {
    if s.main.Change? && s.main.op.Delete? {
      EraseTakesOut(s.audioNodes, s.main.op.n);
    }
  }

  lemma MainKeepsListed(s: State, s': State)
    requires Inv(s) && AllListed(s) && MainStep(true, s, s')
    ensures AllListed(s')
  {
    match s.main
    case Change(op) =>
      if op.Delete? { EraseFromDistinct(s.audioNodes, op.n); }
    case _ =>
  }

  lemma ListedKept(s: State, s': State)
    requires Inv(s) && AllListed(s) && Next(true, s, s')
    ensures AllListed(s')
  {
    if MainStep(true, s, s') {
      MainKeepsListed(s, s');
    }
  }

  /** In every state of every run, every audio node that is not just being created or deleted is in the list. */
  lemma {:induction false} ListedAlways(run: seq<State>, k: nat)
    requires IsRun(true, run) && k < |run|
    ensures AllListed(run[k])
  {
    if k > 0 {
      ListedAlways(run, k - 1);
      InvAlways(run, k - 1);
      assert StepAt(true, run, k);
      ListedKept(run[k - 1], run[k]);
    }
  }

  // ----- what a call of ProcessAudio processes

  predicate InLoop(s: State) { s.audio.Iterate? || s.audio.Process? }

  /** The run from a to b is inside the loop of one call, whatever the main thread does meanwhile. */
  ghost predicate LoopRuns(run: seq<State>, a: nat, b: nat) {
    a <= b < |run| && run[a].audio == Iterate(0) && forall j :: a <= j < b ==> InLoop(run[j])
  }

  /** The calls of a node's ProcessAudio that begin between two states, with the index the loop is at. */
  function Visits(run: seq<State>, a: nat, b: nat): seq<(nat, Node)>
    requires a <= b < |run|
  {
    if a == b then []
    else
      Visits(run, a, b - 1)
      + if run[b - 1].audio.Iterate? && run[b].audio.Process? then [(run[b].audio.i, run[b].audio.n)] else []
  }

  ghost predicate VisitedTo(visits: seq<(nat, Node)>, list: seq<Node>, i: nat) {
    |visits| == i <= |list| && forall j :: 0 <= j < i ==> visits[j] == (j, list[j])
  }

  lemma LoopStep(run: seq<State>, j: nat)
    requires IsRun(true, run) && 0 < j < |run| && InLoop(run[j - 1])
    ensures run[j].audioNodes == run[j - 1].audioNodes
    ensures run[j].audio == run[j - 1].audio || run[j].audio == AudioNext(run[j - 1]).audio
  {
    InvAlways(run, j - 1);
    assert StepAt(true, run, j);
    LoopNext(run[j - 1], run[j]);
  }

  lemma LoopNext(s: State, s': State)
    requires FlagsInv(s) && InLoop(s) && Next(true, s, s')
    ensures s'.audioNodes == s.audioNodes && (s'.audio == s.audio || s'.audio == AudioNext(s).audio)
  {
    if MainStep(true, s, s') {
      ChangeMeans(true, s, s');
      MainLeavesAudio(s, s');
    }
  }

  lemma MainLeavesAudio(s: State, s': State)
    requires MainStep(true, s, s')
    ensures s'.audio == s.audio
  {
  }

  lemma LoopPrefix(run: seq<State>, a: nat, b: nat)
    requires LoopRuns(run, a, b) && a < b
    ensures LoopRuns(run, a, b - 1) && InLoop(run[b - 1])
  {
  }

  /** The loop walks the list in order, and the list does not change under it. */
  lemma {:induction false} LoopVisits(run: seq<State>, a: nat, b: nat)
    requires IsRun(true, run) && LoopRuns(run, a, b)
    ensures run[b].audioNodes == run[a].audioNodes
    ensures match run[b].audio
            case Iterate(i) => VisitedTo(Visits(run, a, b), run[a].audioNodes, i)
            case Process(i, n) => VisitedTo(Visits(run, a, b), run[a].audioNodes, i + 1)
            case StoreDone => VisitedTo(Visits(run, a, b), run[a].audioNodes, |run[a].audioNodes|)
            case _ => false
    decreases b
  {
    hide IsRun;
    if a < b {
      LoopPrefix(run, a, b);
      LoopVisits(run, a, b - 1);
      LoopStep(run, b);
    }
  }

  /** A call that reaches the end of its loop has processed exactly the listed nodes, in order and once
      each; every audio node that was not just being created or deleted is among them. */
  lemma CallProcessesAll(run: seq<State>, a: nat, b: nat)
    requires IsRun(true, run) && LoopRuns(run, a, b) && run[b].audio == StoreDone
    ensures var visits, list := Visits(run, a, b), run[a].audioNodes;
            |visits| == |list| && forall i :: 0 <= i < |list| ==> visits[i] == (i, list[i])
    ensures forall n :: n in run[a].live && !InTransit(run[a], n) ==>
              exists i :: 0 <= i < |Visits(run, a, b)| && Visits(run, a, b)[i].1 == n
  {
    LoopVisits(run, a, b);
    ListedAlways(run, a);
    var visits, list := Visits(run, a, b), run[a].audioNodes;
    forall n | n in run[a].live && !InTransit(run[a], n) ensures exists i :: 0 <= i < |visits| && visits[i].1 == n {
      var i :| 0 <= i < |list| && list[i] == n;
      assert visits[i].1 == n;
    }
  }

  /** Steps of the audio thread that lead through the loop. */
  function LoopMoves(run: seq<State>, a: nat, b: nat): nat
    requires a <= b < |run|
  {
    if a == b then 0 else LoopMoves(run, a, b - 1) + if run[b].audio != run[b - 1].audio then 1 else 0
  }

  /** The loop comes to its end after two steps of the audio thread for each node and one more, however
      many steps of the main thread come between. */
  lemma {:induction false} LoopEnds(run: seq<State>, a: nat, b: nat)
    requires IsRun(true, run) && LoopRuns(run, a, b)
    ensures LoopMoves(run, a, b) <= 2 * |run[a].audioNodes| + 1
    ensures LoopMoves(run, a, b) == 2 * |run[a].audioNodes| + 1 <==> run[b].audio == StoreDone
    decreases b
  {
    LoopProgress(run, a, b);
    LoopVisits(run, a, b);
  }

  lemma {:induction false} LoopProgress(run: seq<State>, a: nat, b: nat)
    requires IsRun(true, run) && LoopRuns(run, a, b)
    ensures LoopMoves(run, a, b) == match run[b].audio
                                    case Iterate(i) => 2 * i
                                    case Process(i, _) => 2 * i + 1
                                    case _ => 2 * |run[a].audioNodes| + 1
    decreases b
  {
    hide IsRun, Visits;
    if a < b {
      LoopPrefix(run, a, b);
      LoopProgress(run, a, b - 1);
      LoopVisits(run, a, b - 1);
      LoopStep(run, b);
    }
  }

  /** A call that finds the lock down goes through the whole loop. */
  lemma UnlockedCallProcesses(s: State)
    requires Inv(s) && s.audio.LoadLock? && !s.audioLock
    ensures AudioNext(s) == s.(audio := Iterate(0))
    ensures AudioAlone(AudioNext(s), 2 * |s.audioNodes| + 1) == s.(audio := StoreDone)
  {
    LoopAlone(AudioNext(s));
  }

  lemma {:induction false} LoopAlone(s: State)
    requires s.audio.Iterate? && s.audio.i <= |s.audioNodes|
    ensures AudioAlone(s, 2 * (|s.audioNodes| - s.audio.i) + 1) == s.(audio := StoreDone)
    decreases |s.audioNodes| - s.audio.i
  {
    if s.audio.i < |s.audioNodes| {
      var next := AudioNext(AudioNext(s));
      LoopAlone(next);
      var k := 2 * (|s.audioNodes| - s.audio.i) + 1;
      assert AudioAlone(s, k) == AudioAlone(AudioNext(s), k - 1);
      assert AudioAlone(AudioNext(s), k - 1) == AudioAlone(next, k - 2);
    } else {
      assert AudioAlone(s, 1) == AudioAlone(AudioNext(s), 0);
    }
  }

  // ----- what goes wrong without the wait

  lemma RunExtends(waits: bool, run: seq<State>, s: State)
    requires IsRun(waits, run) && Next(waits, run[|run| - 1], s)
    ensures IsRun(waits, run + [s])
  {
    hide Next;
    var longer := run + [s];
    forall j: nat | 0 < j < |longer| ensures StepAt(waits, longer, j) {
      assert j < |run| ==> StepAt(waits, run, j);
    }
  }

  lemma Extend(waits: bool, run: seq<State>, s: State) returns (longer: seq<State>)
    requires IsRun(waits, run) && Next(waits, run[|run| - 1], s)
    ensures longer == run + [s] && IsRun(waits, longer)
  {
    longer := run + [s];
    RunExtends(waits, run, s);
  }

  /** One step of the audio thread. */
  lemma AudioMoves(waits: bool, run: seq<State>) returns (longer: seq<State>)
    requires IsRun(waits, run)
    ensures IsRun(waits, longer) && longer[|longer| - 1] == AudioNext(run[|run| - 1])
  {
    longer := run + [AudioNext(run[|run| - 1])];
    RunExtends(waits, run, AudioNext(run[|run| - 1]));
  }

  /** A run in which the main thread does nothing but take the lock for an operation. */
  lemma TakeLock(run: seq<State>, op: Op) returns (longer: seq<State>)
    requires IsRun(false, run)
    requires var s := run[|run| - 1]; s.main == StoreLock(op) && !s.processingAudio && !(op.New? && s.destructing)
    ensures IsRun(false, longer)
    ensures longer[|longer| - 1]
      == run[|run| - 1].(audioLock := true, main := if op.New? then StoreClear else Change(op))
  {
    var s := run[|run| - 1];
    longer := Extend(false, run, s.(audioLock := true, main := Spin(op)));
    longer := Extend(false, longer, s.(audioLock := true, main := if op.New? then StoreClear else Change(op)));
  }

  /** NewGraph without the wait, from the moment it holds the lock, on a graph of at most node 7. */
  lemma NewGraphRushes(run: seq<State>) returns (longer: seq<State>)
    requires IsRun(false, run)
    requires run[|run| - 1].main == StoreClear && run[|run| - 1].live <= {7}
    ensures IsRun(false, longer)
    ensures longer[|longer| - 1]
      == run[|run| - 1].(clearAudioNodes := true, live := {}, audioLock := false, main := Idle)
  {
    var s := run[|run| - 1].(clearAudioNodes := true, main := DeleteNodes);
    longer := Extend(false, run, s);
    if s.live != {} {
      assert 7 in s.live && s.live - {7} == {};
      s := s.(live := {});
      longer := Extend(false, longer, s);
    }
    longer := Extend(false, longer, s.(main := Unlock(New)));
    longer := Extend(false, longer, s.(audioLock := false, main := Idle));
  }

  lemma OneNodeCreated() returns (run: seq<State>)
    ensures IsRun(false, run) && run[|run| - 1] == State(false, false, false, [7], {7}, false, Idle, Outside)
  {
    var s := State(false, false, false, [], {}, false, Idle, Outside);
    run := Extend(false, [s], s.(live := {7}, main := StoreLock(Create(7))));
    run := TakeLock(run, Create(7));
    s := s.(live := {7}, audioNodes := [7]);
    run := Extend(false, run, s.(audioLock := true, main := Unlock(Create(7))));
    run := Extend(false, run, s);
  }

  /** Without the wait, the audio thread can have looked at clearAudioNodes before NewGraph, and then
      iterate over the nodes NewGraph has deleted. */
  lemma DeletedNodeIsProcessed() returns (run: seq<State>)
    ensures IsRun(false, run) && run[|run| - 1].audio == Process(0, 7) && 7 !in run[|run| - 1].live
  {
    hide IsRun;
    run := OneNodeCreated();
    // the audio thread finds nothing to clear
    run := AudioMoves(false, run);
    run := AudioMoves(false, run);
    var s := run[|run| - 1];
    run := Extend(false, run, s.(main := StoreLock(New)));
    run := TakeLock(run, New);
    run := NewGraphRushes(run);
    run := AudioMoves(false, run);
    run := AudioMoves(false, run);
    run := AudioMoves(false, run);
  }

  /** Without the wait, the deferred clear can also run while a later CreateAndAdd pushes. */
  lemma ClearOverlapsPush() returns (run: seq<State>)
    ensures IsRun(false, run) && MainChanges(run[|run| - 1]) && AudioUses(run[|run| - 1])
  {
    var s := State(false, false, false, [], {}, false, Idle, Outside);
    run := Extend(false, [s], s.(main := StoreLock(New)));
    run := TakeLock(run, New);
    run := NewGraphRushes(run);
    run := AudioMoves(false, run);
    run := AudioMoves(false, run);
    s := run[|run| - 1];
    run := Extend(false, run, s.(live := {7}, main := StoreLock(Create(7))));
    run := TakeLock(run, Create(7));
  }

  /** Over all interleavings: the threads never meet on audioNodes and no deleted node is processed,
      if and only if NewGraph waits for the audio thread to clear the list. */
  lemma SafeIffNewGraphWaits(waits: bool)
    ensures waits <==> forall run: seq<State>, k: nat :: IsRun(waits, run) && k < |run| ==> Safe(run[k])
  {
    if waits {
      forall run: seq<State>, k: nat | IsRun(waits, run) && k < |run| ensures Safe(run[k]) {
        InvAlways(run, k);
      }
    } else {
      var run := DeletedNodeIsProcessed();
      assert !Safe(run[|run| - 1]);
    }
  }

  // ----- the waits can end

  /** The state after k steps of the audio thread alone. */
  function AudioAlone(s: State, k: nat): State
    decreases k
  {
    if k == 0 then s else AudioAlone(AudioNext(s), k - 1)
  }

  /** Steps of the audio thread until the call it is in has ended. */
  function StepsLeft(s: State): nat {
    match s.audio
    case Outside => 0
    case LoadClear => 6
    case Clearing => 5
    case ResetClear => 4
    case StoreProcessing => 3
    case LoadLock => 2
    case BailOut => 1
    case Iterate(i) => 2 + (if i < |s.audioNodes| then 2 * (|s.audioNodes| - i) else 0)
    case Process(i, n) => 1 + (if i < |s.audioNodes| then 2 * (|s.audioNodes| - i) else 2)
    case StoreDone => 1
  }

  /** While the lock is held, the audio thread leaves the call it is in, and a call that began with
      a pending clear leaves none behind. */
  lemma {:induction false} AudioFinishesCall(s: State) returns (k: nat)
    requires Inv(s) && s.audioLock
    ensures var t := AudioAlone(s, k);
            && t.audio == Outside && Inv(t) && t.main == s.main && t.audioLock
            && (!s.clearAudioNodes || s.audio.LoadClear? ==> !t.clearAudioNodes)
    decreases StepsLeft(s)
  {
    if s.audio.Outside? {
      k := 0;
    } else {
      AudioKeepsInv(s);
      if s.audio.LoadClear? && s.clearAudioNodes {
        // one call clears the list and the flag before it does anything else
        AudioKeepsInv(AudioNext(s));
        AudioKeepsInv(AudioNext(AudioNext(s)));
        k := AudioFinishesCall(AudioNext(AudioNext(AudioNext(s))));
        k := k + 3;
        assert AudioAlone(s, k) == AudioAlone(AudioNext(s), k - 1);
        assert AudioAlone(AudioNext(s), k - 1) == AudioAlone(AudioNext(AudioNext(s)), k - 2);
      } else {
        k := AudioFinishesCall(AudioNext(s));
        k := k + 1;
      }
    }
  }

  lemma {:induction false} AudioAloneAdds(s: State, j: nat, k: nat)
    ensures AudioAlone(AudioAlone(s, j), k) == AudioAlone(s, j + k)
    decreases j
  {
    if j > 0 {
      AudioAloneAdds(AudioNext(s), j - 1, k);
    }
  }

  /** Neither wait of the main thread is a deadlock: from every reachable state the audio thread
      alone reaches one in which the awaited flag is down. */
  lemma WaitsCanEnd(run: seq<State>, k: nat) returns (steps: nat)
    requires IsRun(true, run) && k < |run|
    requires run[k].main.Spin? || run[k].main.AwaitClear?
    ensures var t := AudioAlone(run[k], steps);
            t.main == run[k].main && if t.main.Spin? then !t.processingAudio else !t.clearAudioNodes
  {
    var s := run[k];
    InvAlways(run, k);
    steps := AudioFinishesCall(s);
    var t := AudioAlone(s, steps);
    if t.main.AwaitClear? && t.clearAudioNodes {
      AudioKeepsInv(t);
      var more := AudioFinishesCall(AudioNext(t));
      AudioAloneAdds(s, steps, more + 1);
      steps := steps + (more + 1);
    }
  }
}
