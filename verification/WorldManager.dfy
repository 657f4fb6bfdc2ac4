/**
 * UJoltNetworkPredictionWorldManager, the per-world driver: receiving
 * client input and acked frames on the server, choosing the rollback frame
 * and replaying the frames after it, the fixed tick (one step per engine
 * frame at most, followed by the input send), the variable tick, and the
 * clamp on how far lag compensation may rewind.
 * The services it drives are represented by what the manager itself
 * decides: which frames, which time steps, which physics snapshots.
 * Floats are reals; int32 overflow of frame numbers is not modelled.
 */
module WorldManager {
  import opened Common
  import TickState
  import FrameBuffer
  import ReplicationProxy
  import PlayerController
  import InputService

  // ---------------------------------------------------------------------
  // OnInputReceived (server)
  // ---------------------------------------------------------------------

  /** A player controller as the manager sees it: an opaque handle and its record. */
  datatype Handler = Handler(key: nat, controller: PlayerController.Controller)

  /** What input receipt touches: the RPC handler list and the fixed remote-input simulations. */
  datatype InputWorld<C> = InputWorld(rpcHandlers: seq<nat>, instances: seq<InputService.Instance<C>>)

  predicate ValidInputWorld<C>(w: InputWorld<C>)
  {
    forall i :: 0 <= i < |w.instances| ==> InputService.ValidInstance(w.instances[i])
  }

  /**
   * OnInputReceived: a null handler is ignored; otherwise the handler is
   * remembered, and the batch is delivered only when its frame is newer
   * than the handler's last received frame, which then moves up to it.
   */
  function OnInputReceived<C>(
    w: InputWorld<C>, handler: Option<Handler>, frame: int, interp: real,
    inputs: seq<ReplicationProxy.ReplicatedInput>, decode: ReplicationProxy.ReplicatedInput -> C): (r: (InputWorld<C>, Option<Handler>))
    requires ValidInputWorld(w)
    requires handler.Some? ==> handler.value.controller.lastReceivedFrame >= INDEX_NONE
    ensures ValidInputWorld(r.0)
    ensures handler.None? ==> r == (w, handler)
    ensures handler.Some? ==>
      var h := handler.value;
      var lrf := h.controller.lastReceivedFrame;
      r.1.Some? && r.1.value.key == h.key && h.key in r.0.rpcHandlers &&
      r.1.value.controller == h.controller.(lastReceivedFrame := Max(lrf, frame)) &&
      (frame <= lrf ==> r.0.instances == w.instances) &&
      (frame > lrf ==>
        frame >= 0 && r.0.instances == InputService.OnFixedInputReceived(w.instances, inputs, h.key, lrf, frame, interp, decode))
  {
    match handler
    case None => (w, handler)
    case Some(h) =>
      var handlers := AddUnique(w.rpcHandlers, h.key);
      var lrf := h.controller.lastReceivedFrame;
      if lrf >= frame then (w.(rpcHandlers := handlers), handler)
      else
        (InputWorld(handlers, InputService.OnFixedInputReceived(w.instances, inputs, h.key, lrf, frame, interp, decode)),
         Some(h.(controller := h.controller.(lastReceivedFrame := frame))))
  }

  /** One Server_ReceivedInput call as it arrives. */
  datatype InputBatch = InputBatch(frame: int, interp: real, inputs: seq<ReplicationProxy.ReplicatedInput>)

  /** Several batches from one controller, in arrival order. */
  function ReceiveBatches<C>(
    w: InputWorld<C>, h: Handler, batches: seq<InputBatch>,
    decode: ReplicationProxy.ReplicatedInput -> C): (r: (InputWorld<C>, Handler))
    requires ValidInputWorld(w) && h.controller.lastReceivedFrame >= INDEX_NONE
    ensures ValidInputWorld(r.0) && r.1.key == h.key
    ensures r.1.controller.lastReceivedFrame >= h.controller.lastReceivedFrame
    // the controller's last received frame ends at the newest delivered
    // frame, and no simulation sees a batch when none is delivered
    ensures var d := DeliveredFrames(h.controller.lastReceivedFrame, FramesOf(batches));
      (|d| == 0 ==> r.1.controller.lastReceivedFrame == h.controller.lastReceivedFrame && r.0.instances == w.instances) &&
      (|d| > 0 ==> r.1.controller.lastReceivedFrame == d[|d| - 1])
    decreases |batches|
  {
    if |batches| == 0 then (w, h)
    else
      var b := batches[0];
      var lrf := h.controller.lastReceivedFrame;
      var next := OnInputReceived(w, Some(h), b.frame, b.interp, b.inputs, decode);
      var nl := next.1.value.controller.lastReceivedFrame;
      var r := ReceiveBatches(next.0, next.1.value, batches[1..], decode);
      DeliveredUnfoldBatches(lrf, batches, nl);
      DeliveredStep(lrf, b.frame, nl, r.1.controller.lastReceivedFrame,
                    DeliveredFrames(nl, FramesOf(batches[1..])), DeliveredFrames(lrf, FramesOf(batches)));
      r
  }

  /** The frames of the batches. */
  function FramesOf(batches: seq<InputBatch>): (r: seq<int>)
    ensures |r| == |batches|
    ensures forall i :: 0 <= i < |r| ==> r[i] == batches[i].frame
  {
    seq(|batches|, i requires 0 <= i < |batches| => batches[i].frame)
  }

  /**
   * The reference for input delivery: starting from a last received frame,
   * the frames that are newer than every frame before them, in order.
   */
  function DeliveredFrames(lastReceived: int, frames: seq<int>): (d: seq<int>)
    ensures forall i :: 0 <= i < |d| ==> d[i] > lastReceived && d[i] in frames
    ensures forall i, j :: 0 <= i < j < |d| ==> d[i] < d[j]
    decreases |frames|
  {
    if |frames| == 0 then []
    else if frames[0] > lastReceived then [frames[0]] + DeliveredFrames(frames[0], frames[1..])
    else DeliveredFrames(lastReceived, frames[1..])
  }

  /** DeliveredFrames over the batches' frames, one batch at a time. */
  lemma DeliveredUnfoldBatches(lrf: int, batches: seq<InputBatch>, nl: int)
    requires |batches| > 0 && nl == Max(lrf, batches[0].frame)
    ensures DeliveredFrames(lrf, FramesOf(batches))
      == if batches[0].frame > lrf then [batches[0].frame] + DeliveredFrames(nl, FramesOf(batches[1..]))
         else DeliveredFrames(nl, FramesOf(batches[1..]))
  {
    DeliveredFramesUnfold(lrf, FramesOf(batches));
    assert FramesOf(batches)[1..] == FramesOf(batches[1..]);
  }

  /** The last delivered frame after one more batch, from the last delivered frame after the rest. */
  lemma DeliveredStep(lrf: int, f0: int, nextLrf: int, finalLrf: int, rest: seq<int>, d: seq<int>)
    requires nextLrf == Max(lrf, f0)
    requires d == if f0 > lrf then [f0] + rest else rest
    requires |rest| == 0 ==> finalLrf == nextLrf
    requires |rest| > 0 ==> finalLrf == rest[|rest| - 1]
    ensures |d| == 0 ==> f0 <= lrf && |rest| == 0 && finalLrf == lrf
    ensures |d| > 0 ==> finalLrf == d[|d| - 1]
  {
    if f0 > lrf {
      assert d[|d| - 1] == if |rest| == 0 then f0 else rest[|rest| - 1];
    }
  }

  lemma DeliveredFramesUnfold(lastReceived: int, frames: seq<int>)
    requires |frames| > 0
    ensures frames[0] > lastReceived ==>
      DeliveredFrames(lastReceived, frames) == [frames[0]] + DeliveredFrames(frames[0], frames[1..])
    ensures frames[0] <= lastReceived ==>
      DeliveredFrames(lastReceived, frames) == DeliveredFrames(lastReceived, frames[1..])
  {
  }

  // ---------------------------------------------------------------------
  // OnReceivedAckedData (server)
  // ---------------------------------------------------------------------

  /** The loop: each (ID, frame) pair overwrites that ID's acked frame. */
  function WriteAckedFrames(m: map<nat, nat>, ids: seq<nat>, frames: seq<nat>): (r: map<nat, nat>)
    requires |ids| == |frames|
    decreases |ids|
  {
    if |ids| == 0 then m
    else WriteAckedFrames(m[ids[0] := frames[0]], ids[1..], frames[1..])
  }

  /**
   * Per ID the last pair written wins; an ID not in the batch keeps
   * whatever it had, including having nothing.
   */
  lemma {:induction false} AckedLastWriteWins(m: map<nat, nat>, ids: seq<nat>, frames: seq<nat>, id: nat)
    requires |ids| == |frames|
    ensures var r := WriteAckedFrames(m, ids, frames);
      (id in ids ==> id in r && r[id] == frames[LastIndexOf(ids, id)]) &&
      (id !in ids ==> (id in r <==> id in m) && (id in m ==> r[id] == m[id]))
    decreases |ids|
  {
    if |ids| > 0 {
      var m' := m[ids[0] := frames[0]];
      AckedLastWriteWins(m', ids[1..], frames[1..], id);
      if id in ids[1..] {
        var k := LastIndexOf(ids[1..], id);
        assert LastIndexOf(ids, id) == k + 1 by {
          assert ids[k + 1] == id;
          assert forall j :: k + 1 < j < |ids| ==> ids[j] == ids[1..][j - 1];
        }
      } else if id == ids[0] {
        assert LastIndexOf(ids, id) == 0 by {
          assert forall j :: 0 < j < |ids| ==> ids[j] == ids[1..][j - 1];
        }
      } else {
        assert id !in ids by {
          assert forall j :: 0 < j < |ids| ==> ids[j] == ids[1..][j - 1];
        }
      }
    }
  }

  /**
   * OnReceivedAckedData: the counts must match (a checked assertion);
   * nothing happens without a handler connection (`connection` is None when
   * the handler or its connection is null); otherwise that connection's
   * acked frames are found or added and the batch is written into them.
   */
  function OnReceivedAckedData(acked: map<nat, map<nat, nat>>, ids: seq<nat>, frames: seq<nat>, connection: Option<nat>): (r: map<nat, map<nat, nat>>)
    requires |ids| == |frames|
    ensures connection.None? ==> r == acked
    ensures connection.Some? ==>
      r.Keys == acked.Keys + {connection.value} &&
      (forall c :: c in acked && c != connection.value ==> r[c] == acked[c])
  {
    match connection
    case None => acked
    case Some(c) =>
      var existing := if c in acked then acked[c] else map[];
      acked[c := WriteAckedFrames(existing, ids, frames)]
  }

  /** The connection's entry for an ID holds the frame of the last pair with that ID; other IDs are kept. */
  lemma AckedDataLastWins(acked: map<nat, map<nat, nat>>, ids: seq<nat>, frames: seq<nat>, connection: nat, id: nat)
    requires |ids| == |frames|
    ensures var r := OnReceivedAckedData(acked, ids, frames, Some(connection))[connection];
      (id in ids ==> id in r && r[id] == frames[LastIndexOf(ids, id)]) &&
      (id !in ids && connection in acked ==>
        (id in r <==> id in acked[connection]) && (id in acked[connection] ==> r[id] == acked[connection][id])) &&
      (id !in ids && connection !in acked ==> id !in r)
  {
    var existing := if connection in acked then acked[connection] else map[];
    AckedLastWriteWins(existing, ids, frames, id);
  }

  // ---------------------------------------------------------------------
  // Reconcile: the rollback frame
  // ---------------------------------------------------------------------

  /** One service's request folded into the running choice. */
  function MergeRequest(acc: int, req: int): (r: int)
  {
    if req == INDEX_NONE then acc
    else if acc == INDEX_NONE then req
    else Min(acc, req)
  }

  /** The query loop, from a running choice. */
  function RollbackFrameFrom(acc: int, reqs: seq<int>): (r: int)
    ensures r == INDEX_NONE <==> acc == INDEX_NONE && forall i :: 0 <= i < |reqs| ==> reqs[i] == INDEX_NONE
    ensures r != INDEX_NONE ==> r == acc || r in reqs
    ensures acc != INDEX_NONE ==> r <= acc
    ensures forall i :: 0 <= i < |reqs| && reqs[i] != INDEX_NONE ==> r <= reqs[i]
    decreases |reqs|
  {
    if |reqs| == 0 then acc
    else
      var r := RollbackFrameFrom(MergeRequest(acc, reqs[0]), reqs[1..]);
      assert forall i :: 1 <= i < |reqs| ==> reqs[i] == reqs[1..][i - 1];
      r
  }

  /**
   * The rollback frame: INDEX_NONE exactly when no service asks for one,
   * otherwise the earliest frame any service asks for.
   */
  function RollbackFrame(reqs: seq<int>): (r: int)
    ensures r == INDEX_NONE <==> forall i :: 0 <= i < |reqs| ==> reqs[i] == INDEX_NONE
    ensures r != INDEX_NONE ==> r in reqs
    ensures forall i :: 0 <= i < |reqs| && reqs[i] != INDEX_NONE ==> r <= reqs[i]
  {
    RollbackFrameFrom(INDEX_NONE, reqs)
  }

  /** Asking in a different order gives the same frame. */
  lemma RollbackFrameOrderFree(a: seq<int>, b: seq<int>)
    requires multiset(a) == multiset(b)
    ensures RollbackFrame(a) == RollbackFrame(b)
  {
    var ra, rb := RollbackFrame(a), RollbackFrame(b);
    assert forall x :: x in a <==> x in b by {
      forall x
        ensures x in a <==> x in b
      {
        assert x in a <==> x in multiset(a);
        assert x in b <==> x in multiset(b);
      }
    }
    if ra != INDEX_NONE && rb != INDEX_NONE {
      assert ra in b;
      assert rb in a;
    }
  }

  // ---------------------------------------------------------------------
  // Reconcile: the replay
  // ---------------------------------------------------------------------

  /**
   * What the physics subsystem is asked to do. A save also records, for the
   * model's bookkeeping only, the local frame whose starting state the world
   * holds at that moment.
   */
  datatype PhysicsOp = RestoreSnapshot(key: int) | SaveSnapshot(key: int, heldFrame: int)

  /** One replayed frame: the steps handed to the services, the first-step flag and the physics calls. */
  datatype ResimStep = ResimStep(
    step: TickState.NetSimTimeStep,
    service: TickState.ServiceTimeStep,
    firstStep: bool,
    physics: seq<PhysicsOp>)

  /**
   * A replayed frame keyed by its local frame, as the replay loop does it:
   * on the first step the snapshot is restored under the local frame, and
   * after stepping the state is saved under the local frame too.
   */
  function ResimStepAsWritten(s: TickState.FixedTickState, frame: int, first: bool, hasPhysics: bool): (r: ResimStep)
    ensures r.step == TickState.GetNextTimeStep(s.(pendingFrame := frame))
    ensures r.service == TickState.GetNextServiceTimeStep(s.(pendingFrame := frame))
    ensures r.firstStep == first
    ensures (first && hasPhysics) <==> RestoreSnapshot(frame) in r.physics
    ensures hasPhysics ==> SaveSnapshot(frame, frame + 1) in r.physics
  {
    var at := s.(pendingFrame := frame);
    ResimStep(TickState.GetNextTimeStep(at), TickState.GetNextServiceTimeStep(at), first,
      (if first && hasPhysics then [RestoreSnapshot(frame)] else []) +
      (if hasPhysics then [SaveSnapshot(frame, frame + 1)] else []))
  }

  /**
   * A replayed frame with the snapshot keys of the normal tick: the state
   * after stepping is saved under the step's frame, and the state at the
   * start of the frame is looked up under the key the tick before saved it.
   */
  function ResimStepAt(s: TickState.FixedTickState, frame: int, first: bool, hasPhysics: bool): (r: ResimStep)
    ensures r.step == TickState.GetNextTimeStep(s.(pendingFrame := frame))
    ensures r.service == TickState.GetNextServiceTimeStep(s.(pendingFrame := frame))
    ensures r.firstStep == first
    ensures (first && hasPhysics) <==> RestoreSnapshot(frame + s.offset) in r.physics
    ensures hasPhysics ==> SaveSnapshot(r.step.frame, frame + 1) in r.physics
  {
    var at := s.(pendingFrame := frame);
    var step := TickState.GetNextTimeStep(at);
    ResimStep(step, TickState.GetNextServiceTimeStep(at), first,
      (if first && hasPhysics then [RestoreSnapshot(frame + s.offset)] else []) +
      (if hasPhysics then [SaveSnapshot(step.frame, frame + 1)] else []))
  }

  /** The replay loop over [rollbackFrame, endFrame), keyed by the local frame as written. */
  function ResimRange(s: TickState.FixedTickState, rollbackFrame: int, endFrame: int, hasPhysics: bool): (r: seq<ResimStep>)
    requires rollbackFrame <= endFrame
    ensures |r| == endFrame - rollbackFrame
    ensures forall i :: 0 <= i < |r| ==> r[i] == ResimStepAsWritten(s, rollbackFrame + i, i == 0, hasPhysics)
  {
    seq(endFrame - rollbackFrame, i requires 0 <= i < endFrame - rollbackFrame =>
      ResimStepAsWritten(s, rollbackFrame + i, i == 0, hasPhysics))
  }

  /** The same loop with the snapshot keys of the normal tick. */
  function ResimRangeCorrected(s: TickState.FixedTickState, rollbackFrame: int, endFrame: int, hasPhysics: bool): (r: seq<ResimStep>)
    requires rollbackFrame <= endFrame
    ensures |r| == endFrame - rollbackFrame
    ensures forall i :: 0 <= i < |r| ==> r[i] == ResimStepAt(s, rollbackFrame + i, i == 0, hasPhysics)
  {
    seq(endFrame - rollbackFrame, i requires 0 <= i < endFrame - rollbackFrame =>
      ResimStepAt(s, rollbackFrame + i, i == 0, hasPhysics))
  }

  /**
   * ReconcileSimulationsPostNetworkUpdate: the last offset catches up with
   * the offset; if a rollback frame is requested and is before the pending
   * frame, every frame from it up to the pending frame is replayed; a
   * request at or after the pending frame is only logged. The pending frame
   * ends where it was. The physics snapshots are keyed as written.
   */
  function Reconcile(s: TickState.FixedTickState, requests: seq<int>, hasPhysics: bool): (r: (TickState.FixedTickState, seq<ResimStep>))
    ensures r.0 == s.(lastOffset := s.offset)
    ensures var rb := RollbackFrame(requests);
      (rb == INDEX_NONE || rb >= s.pendingFrame ==> r.1 == []) &&
      (rb != INDEX_NONE && rb < s.pendingFrame ==> r.1 == ResimRange(r.0, rb, s.pendingFrame, hasPhysics))
  {
    var s' := s.(lastOffset := s.offset);
    var rb := RollbackFrame(requests);
    if rb != INDEX_NONE && rb < s.pendingFrame then (s', ResimRange(s', rb, s.pendingFrame, hasPhysics))
    else (s', [])
  }

  /** The reconcile with the corrected snapshot keys; it replays the same frames. */
  function ReconcileCorrected(s: TickState.FixedTickState, requests: seq<int>, hasPhysics: bool): (r: (TickState.FixedTickState, seq<ResimStep>))
    ensures r.0 == s.(lastOffset := s.offset)
    ensures var rb := RollbackFrame(requests);
      (rb == INDEX_NONE || rb >= s.pendingFrame ==> r.1 == []) &&
      (rb != INDEX_NONE && rb < s.pendingFrame ==> r.1 == ResimRangeCorrected(r.0, rb, s.pendingFrame, hasPhysics))
  {
    var s' := s.(lastOffset := s.offset);
    var rb := RollbackFrame(requests);
    if rb != INDEX_NONE && rb < s.pendingFrame then (s', ResimRangeCorrected(s', rb, s.pendingFrame, hasPhysics))
    else (s', [])
  }

  /**
   * The replay covers exactly the frames after the rollback frame: it
   * starts from the earliest requested frame, each step reads the frame the
   * previous one wrote, the last one writes the pending frame and ends at
   * the pending frame's simulation time, and only the first step is flagged.
   */
  lemma ReplayChainsToPending(s: TickState.FixedTickState, requests: seq<int>, hasPhysics: bool)
    requires RollbackFrame(requests) != INDEX_NONE && RollbackFrame(requests) < s.pendingFrame
    ensures var steps := Reconcile(s, requests, hasPhysics).1;
      |steps| == s.pendingFrame - RollbackFrame(requests) &&
      steps[0].service.localInputFrame == RollbackFrame(requests) &&
      steps[|steps| - 1].service.localOutputFrame == s.pendingFrame &&
      steps[|steps| - 1].service.endTotalSimulationTime == TickState.GetTotalSimTimeMS(s) &&
      (forall i :: 0 <= i < |steps| - 1 ==> steps[i].service.localOutputFrame == steps[i + 1].service.localInputFrame) &&
      (forall i :: 0 <= i < |steps| ==> (steps[i].firstStep <==> i == 0))
  {
  }

  /**
   * The correction changes only the snapshot keys: both reconciles replay
   * the same frames with the same steps, service steps and first-step flags.
   */
  lemma CorrectedReconcileChangesOnlyKeys(s: TickState.FixedTickState, requests: seq<int>, hasPhysics: bool)
    ensures var w := Reconcile(s, requests, hasPhysics);
      var c := ReconcileCorrected(s, requests, hasPhysics);
      w.0 == c.0 && |w.1| == |c.1| &&
      forall i :: 0 <= i < |w.1| ==>
        w.1[i].step == c.1[i].step && w.1[i].service == c.1[i].service && w.1[i].firstStep == c.1[i].firstStep
  {
  }

  // ---------------------------------------------------------------------
  // The fixed tick
  // ---------------------------------------------------------------------

  const KINDA_SMALL_NUMBER: real := 0.0001

  /** One engine frame of fixed ticking: the new state, the step taken (if any) and the physics calls. */
  datatype FixedFrame = FixedFrame(state: TickState.FixedTickState, step: Option<TickState.NetSimTimeStep>, physics: seq<PhysicsOp>)

  /**
   * The fixed tick of BeginNewSimulationFrame: only with fixed-tick
   * services; the engine time is banked, and once a dilated step (less a
   * small tolerance) is banked one step runs, the pending frame moves on,
   * the physics state after the step is saved under the step's frame, and
   * the bank is emptied; the loop always leaves after that first step.
   */
  function FixedTick(s: TickState.FixedTickState, dilatedStepMS: real, hasFixedTick: bool, hasPhysics: bool, engineDeltaMS: real): (r: FixedFrame)
    ensures r.state.fixedStepMS == s.fixedStepMS && r.state.offset == s.offset && r.state.confirmedFrame == s.confirmedFrame
    ensures r.step.None? <==> r.state.pendingFrame == s.pendingFrame
    ensures r.step.Some? <==> hasFixedTick && s.unspentTimeMS + engineDeltaMS + KINDA_SMALL_NUMBER >= dilatedStepMS
    ensures r.step.Some? ==>
      r.state.pendingFrame == s.pendingFrame + 1 && r.state.unspentTimeMS == 0.0 && r.step.value == TickState.GetNextTimeStep(s)
    ensures r.step.None? && hasFixedTick ==> r.state.unspentTimeMS == s.unspentTimeMS + engineDeltaMS
    ensures !hasFixedTick ==> r.state == s
  {
    if !hasFixedTick then FixedFrame(s, None, [])
    else
      var unspent := s.unspentTimeMS + engineDeltaMS;
      if unspent + KINDA_SMALL_NUMBER < dilatedStepMS then FixedFrame(s.(unspentTimeMS := unspent), None, [])
      else
        var step := TickState.GetNextTimeStep(s);
        FixedFrame(s.(pendingFrame := s.pendingFrame + 1, unspentTimeMS := 0.0), Some(step),
          if hasPhysics then [SaveSnapshot(step.frame, s.pendingFrame + 1)] else [])
  }

  /** Snapshots are keyed consistently: every save's key is its held local frame shifted by the offset. */
  predicate SnapshotsKeyed(ops: seq<PhysicsOp>, offset: int)
  {
    forall i :: 0 <= i < |ops| && ops[i].SaveSnapshot? ==> ops[i].key == ops[i].heldFrame + offset
  }

  /** The normal tick's save is keyed consistently. */
  lemma FixedTickSnapshotKeyed(s: TickState.FixedTickState, dilatedStepMS: real, hasFixedTick: bool, hasPhysics: bool, engineDeltaMS: real)
    ensures SnapshotsKeyed(FixedTick(s, dilatedStepMS, hasFixedTick, hasPhysics, engineDeltaMS).physics, s.offset)
  {
  }

  /**
   * With the corrected keys, a replay saves every snapshot under the same
   * key the normal tick uses for that state, and its restore asks for the
   * key under which the start of the rollback frame was saved.
   */
  lemma ReplaySnapshotsKeyed(s: TickState.FixedTickState, rollbackFrame: int, endFrame: int, hasPhysics: bool, i: nat)
    requires rollbackFrame <= endFrame && i < endFrame - rollbackFrame
    ensures var step := ResimRangeCorrected(s, rollbackFrame, endFrame, hasPhysics)[i];
      SnapshotsKeyed(step.physics, s.offset) &&
      (forall k :: 0 <= k < |step.physics| && step.physics[k].RestoreSnapshot? ==>
        i == 0 && step.physics[k].key == rollbackFrame + s.offset)
  {
  }

  /**
   * Keyed by the local frame, a replayed frame saves the state after the step under the
   * frame it started from: with offset 0, the normal tick at pending frame
   * 4 saves the start of frame 5 under key 5, and replaying frame 5 saves
   * the start of frame 6 under the same key, so a later rollback to frame 5
   * would restore the wrong state.
   */
  lemma ResimAsWrittenMiskeys()
    ensures var s := TickState.FixedTickState(33, 7, INDEX_NONE, 0, 0, 0.0);
      var normal := FixedTick(s.(pendingFrame := 4), 33.0, true, true, 33.0).physics;
      var replay := ResimStepAsWritten(s, 5, false, true).physics;
      SaveSnapshot(5, 5) in normal && SaveSnapshot(5, 6) in replay &&
      SnapshotsKeyed(normal, 0) && !SnapshotsKeyed(replay, 0)
  {
    var s := TickState.FixedTickState(33, 7, INDEX_NONE, 0, 0, 0.0);
    var replay := ResimStepAsWritten(s, 5, false, true).physics;
    assert replay == [SaveSnapshot(5, 6)];
  }

  /**
   * Keyed by the local frame, the first replayed frame restores a snapshot
   * the normal tick saved for another frame once the offset is not 0: with
   * offset 5, a rollback to frame 8 restores key 8, which the normal tick at
   * pending frame 2 filled with the start of frame 3; the corrected replay
   * restores key 13, which holds the start of frame 8.
   */
  lemma RestoreAsWrittenMiskeys()
    ensures var s := TickState.FixedTickState(33, 10, 9, 5, 5, 0.0);
      var replay := Reconcile(s, [8], true).1;
      var corrected := ReconcileCorrected(s, [8], true).1;
      |replay| == 2 && RestoreSnapshot(8) in replay[0].physics &&
      SaveSnapshot(8, 3) in FixedTick(s.(pendingFrame := 2), 33.0, true, true, 33.0).physics &&
      |corrected| == 2 && RestoreSnapshot(13) in corrected[0].physics &&
      SaveSnapshot(13, 8) in FixedTick(s.(pendingFrame := 7), 33.0, true, true, 33.0).physics
  {
    var s := TickState.FixedTickState(33, 10, 9, 5, 5, 0.0);
    assert RollbackFrame([8]) == 8;
    var replay := Reconcile(s, [8], true).1;
    assert replay[0] == ResimStepAsWritten(s, 8, true, true);
  }

  /** Engine frames in order. */
  function RunFixedTicks(s: TickState.FixedTickState, dilatedStepMS: real, deltas: seq<real>): (r: TickState.FixedTickState)
    decreases |deltas|
  {
    if |deltas| == 0 then s
    else RunFixedTicks(FixedTick(s, dilatedStepMS, true, false, deltas[0]).state, dilatedStepMS, deltas[1..])
  }

  /**
   * At most one step per engine frame, and exactly one when every engine
   * frame brings at least a dilated step of time (nothing is ever banked
   * past a step, so the simulation can fall behind the engine clock but
   * never catch up).
   */
  lemma {:induction false} FixedTicksAtMostOnePerFrame(s: TickState.FixedTickState, dilatedStepMS: real, deltas: seq<real>)
    ensures var r := RunFixedTicks(s, dilatedStepMS, deltas);
      s.pendingFrame <= r.pendingFrame <= s.pendingFrame + |deltas| &&
      (s.unspentTimeMS >= 0.0 && (forall i :: 0 <= i < |deltas| ==> deltas[i] + KINDA_SMALL_NUMBER >= dilatedStepMS) ==>
        r.pendingFrame == s.pendingFrame + |deltas|)
    decreases |deltas|
  {
    if |deltas| > 0 {
      var next := FixedTick(s, dilatedStepMS, true, false, deltas[0]);
      if s.unspentTimeMS >= 0.0 && (forall i :: 0 <= i < |deltas| ==> deltas[i] + KINDA_SMALL_NUMBER >= dilatedStepMS) {
        assert next.step.Some?;
      }
      FixedTicksAtMostOnePerFrame(next.state, dilatedStepMS, deltas[1..]);
    }
  }

  /** The time beyond one step is dropped: two steps' worth of engine time still runs one step. */
  lemma FixedTickDropsSurplus(s: TickState.FixedTickState, dilatedStepMS: real)
    requires s.unspentTimeMS == 0.0 && dilatedStepMS > 0.0
    ensures var r := FixedTick(s, dilatedStepMS, true, false, 2.0 * dilatedStepMS);
      r.state.pendingFrame == s.pendingFrame + 1 && r.state.unspentTimeMS == 0.0
  {
  }

  // ---------------------------------------------------------------------
  // Sending input (client)
  // ---------------------------------------------------------------------

  /** The frames whose input is sent after a fixed step: [max(pending - max(count, 1), 0), pending). */
  function SendRange(pendingFrame: int, sendCount: int): (r: seq<int>)
    ensures forall i :: 0 <= i < |r| ==> r[i] == Max(pendingFrame - Max(sendCount, 1), 0) + i
    ensures |r| == Max(pendingFrame - Max(pendingFrame - Max(sendCount, 1), 0), 0)
  {
    var start := Max(pendingFrame - Max(sendCount, 1), 0);
    seq(Max(pendingFrame - start, 0), i requires 0 <= i < Max(pendingFrame - start, 0) => start + i)
  }

  /**
   * A frame is sent after the step that makes the pending frame P exactly
   * when it is a written frame (0 <= f < P) among the last max(count, 1).
   */
  lemma SendRangeMembership(pendingFrame: int, sendCount: int, f: int)
    ensures f in SendRange(pendingFrame, sendCount) <==>
      (0 <= f < pendingFrame && pendingFrame - Max(sendCount, 1) <= f)
  {
    var r := SendRange(pendingFrame, sendCount);
    var start := Max(pendingFrame - Max(sendCount, 1), 0);
    if 0 <= f < pendingFrame && pendingFrame - Max(sendCount, 1) <= f {
      assert r[f - start] == f;
    }
  }

  /** The newest written frame is always sent, so every frame goes out at least once. */
  lemma NewestFrameAlwaysSent(pendingFrame: int, sendCount: int)
    requires pendingFrame >= 1
    ensures pendingFrame - 1 in SendRange(pendingFrame, sendCount)
  {
    SendRangeMembership(pendingFrame, sendCount, pendingFrame - 1);
  }

  /** A call the send loop makes on a player controller. */
  datatype RpcCall = InputRpc(handler: nat, frame: int) | AckedFramesRpc(handler: nat)

  /** The calls for one frame: each controller sends that frame, and the acked frames when any are pending. */
  function HandlerCalls(handlers: seq<nat>, frame: int, ackedPending: bool): (r: seq<RpcCall>)
    ensures |r| <= 2 * |handlers|
    ensures forall k :: 0 <= k < |r| && r[k].AckedFramesRpc? ==> ackedPending && r[k].handler in handlers
    ensures forall k :: 0 <= k < |r| && r[k].InputRpc? ==> r[k].frame == frame && r[k].handler in handlers
    ensures forall i :: 0 <= i < |handlers| ==> InputRpc(handlers[i], frame) in r
    ensures ackedPending ==> forall i :: 0 <= i < |handlers| ==> AckedFramesRpc(handlers[i]) in r
    decreases |handlers|
  {
    if |handlers| == 0 then []
    else
      var rest := HandlerCalls(handlers[1..], frame, ackedPending);
      assert forall i :: 1 <= i < |handlers| ==> handlers[i] == handlers[1..][i - 1];
      [InputRpc(handlers[0], frame)] + (if ackedPending then [AckedFramesRpc(handlers[0])] else []) + rest
  }

  /** The send loop: the acked frames are reset after the first frame, so later frames carry none. */
  function SendCalls(frames: seq<int>, handlers: seq<nat>, ackedPending: bool): (r: seq<RpcCall>)
    decreases |frames|
  {
    if |frames| == 0 then []
    else HandlerCalls(handlers, frames[0], ackedPending) + SendCalls(frames[1..], handlers, false)
  }

  /**
   * Every controller sends every frame of the range, and the acked frames
   * go out at most once per tick: only among the first frame's calls.
   */
  lemma {:induction false} SendCallsCoverAndAckOnce(frames: seq<int>, handlers: seq<nat>, ackedPending: bool)
    ensures var r := SendCalls(frames, handlers, ackedPending);
      (forall i, j :: 0 <= i < |frames| && 0 <= j < |handlers| ==> InputRpc(handlers[j], frames[i]) in r) &&
      (forall k :: 0 <= k < |r| && r[k].AckedFramesRpc? ==> ackedPending && k < 2 * |handlers|) &&
      (ackedPending && |frames| > 0 ==> forall j :: 0 <= j < |handlers| ==> AckedFramesRpc(handlers[j]) in r)
    decreases |frames|
  {
    if |frames| > 0 {
      var head := HandlerCalls(handlers, frames[0], ackedPending);
      var tail := SendCalls(frames[1..], handlers, false);
      SendCallsCoverAndAckOnce(frames[1..], handlers, false);
      assert SendCalls(frames, handlers, ackedPending) == head + tail;
      forall i, j | 0 <= i < |frames| && 0 <= j < |handlers|
        ensures InputRpc(handlers[j], frames[i]) in head + tail
      {
        if i == 0 {
          assert InputRpc(handlers[j], frames[0]) in head;
        } else {
          assert frames[i] == frames[1..][i - 1];
          assert InputRpc(handlers[j], frames[i]) in tail;
        }
      }
      forall k | 0 <= k < |head + tail| && (head + tail)[k].AckedFramesRpc?
        ensures ackedPending && k < 2 * |handlers|
      {
        if k >= |head| {
          assert false;
        }
      }
    }
  }

  // ---------------------------------------------------------------------
  // The variable (independent) tick
  // ---------------------------------------------------------------------

  const MIN_STEP_MS: int := 1
  const MAX_STEP_MS: int := 100

  predicate ValidVariable(s: TickState.VariableTickState)
  {
    FrameBuffer.Valid(s.frames) && FrameBuffer.Capacity(s.frames) >= 2
  }

  /** One engine frame of independent ticking: the new state and the step handed to the simulations. */
  datatype VariableFrame = VariableFrame(state: TickState.VariableTickState, step: TickState.NetSimTimeStep)

  /**
   * The independent tick: the whole milliseconds banked become the step,
   * clamped to [1, 100]; only the fraction stays banked. The pending frame
   * records its step, the next frame records the end time, and the pending
   * frame moves on.
   */
  function VariableTick(s: TickState.VariableTickState, engineDeltaMS: real): (r: VariableFrame)
    requires ValidVariable(s)
    ensures ValidVariable(r.state) && FrameBuffer.Capacity(r.state.frames) == FrameBuffer.Capacity(s.frames)
    ensures r.state.pendingFrame == s.pendingFrame + 1 && r.state.confirmedFrame == s.confirmedFrame
    ensures var whole := (s.unspentTimeMS + engineDeltaMS).Floor;
      var ticked := FrameBuffer.At(r.state.frames, s.pendingFrame);
      ticked.deltaMS == Clamp(whole, MIN_STEP_MS, MAX_STEP_MS) &&
      ticked.totalMS == FrameBuffer.At(s.frames, s.pendingFrame).totalMS &&
      r.state.unspentTimeMS == s.unspentTimeMS + engineDeltaMS - whole as real &&
      FrameBuffer.At(r.state.frames, r.state.pendingFrame).totalMS == ticked.totalMS + ticked.deltaMS &&
      r.step == TickState.VariableNextTimeStep(s, ticked)
    ensures forall g: nat ::
      (FrameBuffer.Slot(s.frames, g) != FrameBuffer.Slot(s.frames, s.pendingFrame) &&
       FrameBuffer.Slot(s.frames, g) != FrameBuffer.Slot(s.frames, s.pendingFrame + 1)) ==>
      FrameBuffer.At(r.state.frames, g) == FrameBuffer.At(s.frames, g)
  {
    var unspent := s.unspentTimeMS + engineDeltaMS;
    var whole := unspent.Floor;
    var deltaSim := Clamp(whole, MIN_STEP_MS, MAX_STEP_MS);
    var p := s.pendingFrame;
    var ticked := FrameBuffer.At(s.frames, p).(deltaMS := deltaSim);
    var frames1 := FrameBuffer.Put(s.frames, p, ticked);
    FrameBuffer.NearbyFramesDistinctSlots(s.frames, p, p + 1);
    var frames2 := FrameBuffer.Put(frames1, p + 1, FrameBuffer.At(frames1, p + 1).(totalMS := ticked.totalMS + deltaSim));
    VariableFrame(TickState.VariableTickState(frames2, p + 1, s.confirmedFrame, unspent - whole as real),
      TickState.VariableNextTimeStep(s, ticked))
  }

  /** What stays banked is always a fraction of a millisecond. */
  lemma VariableTickBanksFraction(s: TickState.VariableTickState, engineDeltaMS: real)
    requires ValidVariable(s)
    ensures 0.0 <= VariableTick(s, engineDeltaMS).state.unspentTimeMS < 1.0
  {
  }

  /**
   * Between the clamp bounds no time is lost or invented: the step plus what
   * stays banked is what was banked plus the engine time. Outside them the
   * clamp drops or adds time: 250.5 ms banked runs a 100 ms step and keeps
   * only half a millisecond.
   */
  lemma VariableTickConservesTime(s: TickState.VariableTickState, engineDeltaMS: real)
    requires ValidVariable(s)
    requires MIN_STEP_MS as real <= s.unspentTimeMS + engineDeltaMS < (MAX_STEP_MS + 1) as real
    ensures var r := VariableTick(s, engineDeltaMS);
      r.step.stepMS as real + r.state.unspentTimeMS == s.unspentTimeMS + engineDeltaMS
  {
  }

  lemma VariableTickClampDropsTime(s: TickState.VariableTickState)
    requires ValidVariable(s) && s.unspentTimeMS == 0.0
    ensures var r := VariableTick(s, 250.5);
      r.step.stepMS == 100 && r.state.unspentTimeMS == 0.5
  {
  }

  /** Engine frames in order. */
  function RunVariableTicks(s: TickState.VariableTickState, deltas: seq<real>): (r: TickState.VariableTickState)
    requires ValidVariable(s)
    ensures ValidVariable(r)
    decreases |deltas|
  {
    if |deltas| == 0 then s
    else RunVariableTicks(VariableTick(s, deltas[0]).state, deltas[1..])
  }

  /**
   * After n engine frames the pending frame has moved n on, and its start
   * time is between 1 and 100 ms per frame later than where it began.
   */
  lemma {:induction false} VariableTicksAdvanceTime(s: TickState.VariableTickState, deltas: seq<real>)
    requires ValidVariable(s)
    ensures var r := RunVariableTicks(s, deltas);
      var t0 := FrameBuffer.At(s.frames, s.pendingFrame).totalMS;
      var t := FrameBuffer.At(r.frames, r.pendingFrame).totalMS;
      r.pendingFrame == s.pendingFrame + |deltas| &&
      t0 + MIN_STEP_MS * |deltas| <= t <= t0 + MAX_STEP_MS * |deltas|
    decreases |deltas|
  {
    if |deltas| > 0 {
      var next := VariableTick(s, deltas[0]).state;
      VariableTicksAdvanceTime(next, deltas[1..]);
    }
  }

  // ---------------------------------------------------------------------
  // OnWorldPreTick: step lengths
  // ---------------------------------------------------------------------

  datatype StepLengths = StepLengths(realMS: real, stepMS: int, dilatedMS: real)

  /**
   * OnWorldPreTick_Internal: the real step is 1000 / rate, the integer step
   * its truncation, and the dilated step the real step times the dilation
   * unless dilation is switched off.
   */
  function PreTick(fixedFrameRate: real, timeDilation: real, dilationDisabled: bool): (r: StepLengths)
    requires fixedFrameRate > 0.0
    ensures r.realMS * fixedFrameRate == 1000.0
    ensures r.stepMS as real <= r.realMS < r.stepMS as real + 1.0 && r.stepMS >= 0
    ensures dilationDisabled ==> r.dilatedMS == r.realMS
    ensures !dilationDisabled ==> r.dilatedMS == r.realMS * timeDilation
  {
    var realMS := (1.0 / fixedFrameRate) * 1000.0;
    StepLengths(realMS, realMS.Floor, if dilationDisabled then realMS else realMS * timeDilation)
  }

  // ---------------------------------------------------------------------
  // Lag compensation rewind limit
  // ---------------------------------------------------------------------

  /** The settings GetMaxRewindDuration reads. */
  datatype RewindSettings = RewindSettings(
    maxRewindTimeMS: real,
    preferFixedTick: bool,
    fixedTickInterpolationBufferedMS: real,
    independentTickInterpolationMaxBufferedMS: real,
    fixedTickDesiredBufferedInputCount: int,
    fixedStepRealTimeMS: real)

  /** GetInterpolationDelayMS: the buffered time of the preferred ticking policy. */
  function InterpolationDelayMS(s: RewindSettings): (r: real)
    ensures s.preferFixedTick ==> r == s.fixedTickInterpolationBufferedMS
    ensures !s.preferFixedTick ==> r == s.independentTickInterpolationMaxBufferedMS
  {
    if s.preferFixedTick then s.fixedTickInterpolationBufferedMS else s.independentTickInterpolationMaxBufferedMS
  }

  /** GetMaxRewindDuration: the configured rewind, the interpolation delay and one more frame than the desired input buffer. */
  function MaxRewindDuration(s: RewindSettings): (r: real)
    ensures r == s.maxRewindTimeMS + InterpolationDelayMS(s) +
      (s.fixedTickDesiredBufferedInputCount + 1) as real * s.fixedStepRealTimeMS
  {
    s.maxRewindTimeMS + InterpolationDelayMS(s) + (s.fixedTickDesiredBufferedInputCount + 1) as real * s.fixedStepRealTimeMS
  }

  function RealMin(a: real, b: real): (r: real)
    ensures r <= a && r <= b && (r == a || r == b)
  {
    if a <= b then a else b
  }

  /**
   * ClampRewindingTime: without a manager the target is returned as is;
   * otherwise the rewind is cut to the maximum duration.
   */
  function ClampRewindingTime(current: real, target: real, manager: Option<RewindSettings>): (r: real)
    ensures manager.None? ==> r == target
    ensures manager.Some? ==> r >= target && r >= current - MaxRewindDuration(manager.value)
  {
    match manager
    case None => target
    case Some(s) => current - RealMin(current - target, MaxRewindDuration(s))
  }

  /** The clamped time is the later of the target and the earliest time the rewind limit allows. */
  lemma ClampRewindingTimeIsLater(current: real, target: real, s: RewindSettings)
    ensures var r := ClampRewindingTime(current, target, Some(s));
      r == target || r == current - MaxRewindDuration(s)
    ensures target >= current - MaxRewindDuration(s) ==> ClampRewindingTime(current, target, Some(s)) == target
  {
  }
}
