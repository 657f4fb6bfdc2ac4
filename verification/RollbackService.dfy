/**
 * The rollback services. The fixed-tick one runs on a client once per
 * engine frame: it walks the instances it manages that have fresh server
 * data, chooses the earliest local frame one of them must rewind to, and
 * during the replay injects each correction on its own frame. The
 * independent-tick one rewinds and replays each mismatching instance by
 * itself. Simulation states are opaque; whether a local and a received
 * state differ enough to reconcile is the model definition's verdict,
 * passed in as a function. The data store's client-receive slots, their
 * update bits and their frame buffers are sequences indexed alike.
 */
module RollbackService {
  import opened Common
  import FrameBuffer
  import TickState
  import WorldManager
  import opened ServiceFlags

  /** One frame of an instance: its input command and its sync/aux state pair. */
  datatype FrameData<I, S> = FrameData(input: I, state: S)

  /** What the last server update carried for one instance. */
  datatype ClientRecv<I, S> = ClientRecv(serverFrame: int, input: I, state: S, netRole: NetRole)

  /** The data store as these services see it: received data, update bits and frame buffers per slot. */
  datatype Store<I, S> = Store(
    recv: seq<ClientRecv<I, S>>,
    updated: seq<bool>,
    frames: seq<FrameBuffer.Buffer<FrameData<I, S>>>)

  predicate ValidStore<I, S>(st: Store<I, S>)
  {
    |st.updated| == |st.recv| && |st.frames| == |st.recv| &&
    forall i :: 0 <= i < |st.frames| ==> FrameBuffer.Valid(st.frames[i])
  }

  /** The developer console switches the fixed service reads. */
  datatype Cvars = Cvars(forceReconcile: int, forceReconcileExtraFrames: int, skipReconcile: int)

  /** A slot the query visits: one this service manages that has fresh data. */
  predicate Visited<I, S>(managed: set<nat>, st: Store<I, S>, i: nat)
    requires ValidStore(st) && i < |st.recv|
  {
    i in managed && st.updated[i]
  }

  /** The local frame a received server frame corresponds to. */
  function LocalFrame<I, S>(st: Store<I, S>, i: nat, offset: int): int
    requires i < |st.recv|
  {
    st.recv[i].serverFrame - offset
  }

  /** Every visited slot's local frame, and the pending frame, index the frame buffers. */
  predicate QueryReadable<I, S>(managed: set<nat>, st: Store<I, S>, offset: int, pendingFrame: int)
    requires ValidStore(st)
  {
    pendingFrame >= 0 &&
    forall i: nat :: i < |st.recv| && Visited(managed, st, i) ==> LocalFrame(st, i, offset) >= 0
  }

  // ---------------------------------------------------------------------
  // QueryRollback
  // ---------------------------------------------------------------------

  /** The visited slots from i on have readable local frames. */
  predicate ReadableFrom<I, S>(managed: set<nat>, st: Store<I, S>, offset: int, i: nat)
    requires ValidStore(st)
  {
    forall j: nat :: i <= j < |st.recv| && Visited(managed, st, j) ==> LocalFrame(st, j, offset) >= 0
  }

  /** The query's running result: the frame chosen so far, the slots marked for rollback, the store and the switches. */
  datatype Query<I, S> = Query(rollbackFrame: int, rollback: set<nat>, store: Store<I, S>, cvars: Cvars)

  /** The copy of a received input into the pending frame, done for a simulated proxy that is not rolled back. */
  function CopyInputToPending<I, S>(buf: FrameBuffer.Buffer<FrameData<I, S>>, pendingFrame: nat, input: I): (r: FrameBuffer.Buffer<FrameData<I, S>>)
    requires FrameBuffer.Valid(buf)
    ensures FrameBuffer.Valid(r) && FrameBuffer.Capacity(r) == FrameBuffer.Capacity(buf)
    ensures FrameBuffer.At(r, pendingFrame) == FrameBuffer.At(buf, pendingFrame).(input := input)
  {
    FrameBuffer.Put(buf, pendingFrame, FrameBuffer.At(buf, pendingFrame).(input := input))
  }

  /**
   * One visited slot: a forced reconcile (which then switches itself off)
   * sets the frame to the local frame less the extra frames; otherwise the
   * verdict on the local and received states decides. A requested
   * rollback folds the local frame into the choice unless reconciles are
   * skipped; a simulated proxy that does not take part has its received
   * input copied into the pending frame. Either way the slot is marked
   * for rollback and its update bit cleared.
   */
  function VisitSlot<I, S>(q: Query<I, S>, i: nat, offset: int, pendingFrame: nat, shouldReconcile: (S, S) -> bool): (r: Query<I, S>)
    requires ValidStore(q.store) && i < |q.store.recv| && LocalFrame(q.store, i, offset) >= 0
    ensures ValidStore(r.store) && r.store.recv == q.store.recv
  {
    var rc := q.store.recv[i];
    var local := rc.serverFrame - offset;
    var buf := q.store.frames[i];
    var forced := q.cvars.forceReconcile > 0;
    var doRollback := forced || shouldReconcile(FrameBuffer.At(buf, local).state, rc.state);
    var frame := if forced then local - Max(0, q.cvars.forceReconcileExtraFrames) else q.rollbackFrame;
    var cvars := if forced then q.cvars.(forceReconcile := 0) else q.cvars;
    var taken := doRollback && cvars.skipReconcile == 0;
    var frame' := if taken then WorldManager.MergeRequest(frame, local) else frame;
    var buf' := if !taken && rc.netRole == SimulatedProxy then CopyInputToPending(buf, pendingFrame, rc.input) else buf;
    Query(frame', q.rollback + {i},
      Store(q.store.recv, q.store.updated[i := false], q.store.frames[i := buf']), cvars)
  }

  /** The query loop over slots i and up, in index order. */
  function QueryFrom<I, S>(managed: set<nat>, q: Query<I, S>, i: nat, offset: int, pendingFrame: nat, shouldReconcile: (S, S) -> bool): (r: Query<I, S>)
    requires ValidStore(q.store) && i <= |q.store.recv| && ReadableFrom(managed, q.store, offset, i)
    ensures ValidStore(r.store) && r.store.recv == q.store.recv
    decreases |q.store.recv| - i
  {
    if i == |q.store.recv| then q
    else if Visited(managed, q.store, i) then
      var q' := VisitSlot(q, i, offset, pendingFrame, shouldReconcile);
      assert forall j: nat :: i < j < |q.store.recv| ==> Visited(managed, q'.store, j) == Visited(managed, q.store, j);
      QueryFrom(managed, q', i + 1, offset, pendingFrame, shouldReconcile)
    else QueryFrom(managed, q, i + 1, offset, pendingFrame, shouldReconcile)
  }

  /** QueryRollback: the frame to rewind to (INDEX_NONE for none), the slots to roll back, and the updated store and switches. */
  function QueryRollback<I, S>(managed: set<nat>, st: Store<I, S>, cvars: Cvars, offset: int, pendingFrame: int, shouldReconcile: (S, S) -> bool): (r: Query<I, S>)
    requires ValidStore(st) && QueryReadable(managed, st, offset, pendingFrame)
    ensures ValidStore(r.store) && r.store.recv == st.recv
  {
    QueryFrom(managed, Query(INDEX_NONE, {}, st, cvars), 0, offset, pendingFrame, shouldReconcile)
  }

  /** The slots a query visits, from i on. */
  function VisitedFrom<I, S>(managed: set<nat>, st: Store<I, S>, i: nat): set<nat>
    requires ValidStore(st)
  {
    set j: nat | i <= j < |st.recv| && Visited(managed, st, j)
  }

  /** Slot j's local request in a query without a forced reconcile: its local frame, or INDEX_NONE. */
  function Request<I, S>(managed: set<nat>, st: Store<I, S>, cvars: Cvars, offset: int, shouldReconcile: (S, S) -> bool, j: nat): int
    requires ValidStore(st) && j < |st.recv|
    requires Visited(managed, st, j) ==> LocalFrame(st, j, offset) >= 0
  {
    if Visited(managed, st, j) && cvars.skipReconcile == 0 &&
      shouldReconcile(FrameBuffer.At(st.frames[j], LocalFrame(st, j, offset)).state, st.recv[j].state)
    then LocalFrame(st, j, offset)
    else INDEX_NONE
  }

  /** All slots' requests, in slot order. */
  function Requests<I, S>(managed: set<nat>, st: Store<I, S>, cvars: Cvars, offset: int, pendingFrame: int, shouldReconcile: (S, S) -> bool): (reqs: seq<int>)
    requires ValidStore(st) && QueryReadable(managed, st, offset, pendingFrame)
    ensures |reqs| == |st.recv|
  {
    seq(|st.recv|, j requires 0 <= j < |st.recv| => Request(managed, st, cvars, offset, shouldReconcile, j))
  }

  /** Slot j's frame buffer after a query without a forced reconcile. */
  function QueriedBuffer<I, S>(managed: set<nat>, st: Store<I, S>, cvars: Cvars, offset: int, pendingFrame: nat, shouldReconcile: (S, S) -> bool, j: nat): FrameBuffer.Buffer<FrameData<I, S>>
    requires ValidStore(st) && j < |st.recv|
    requires Visited(managed, st, j) ==> LocalFrame(st, j, offset) >= 0
  {
    if Visited(managed, st, j) && Request(managed, st, cvars, offset, shouldReconcile, j) == INDEX_NONE &&
      st.recv[j].netRole == SimulatedProxy
    then CopyInputToPending(st.frames[j], pendingFrame, st.recv[j].input)
    else st.frames[j]
  }

  /** The stores agree on slots i and up. */
  ghost predicate AgreeFrom<I, S>(a: Store<I, S>, b: Store<I, S>, i: nat)
    requires ValidStore(a) && ValidStore(b)
  {
    a.recv == b.recv &&
    forall j :: i <= j < |a.recv| ==> a.updated[j] == b.updated[j] && a.frames[j] == b.frames[j]
  }

  /** One step of the query loop without a forced reconcile, stated against the store it started from. */
  lemma StepUnforced<I, S>(managed: set<nat>, st: Store<I, S>, q: Query<I, S>, i: nat, offset: int, pendingFrame: nat, shouldReconcile: (S, S) -> bool)
    requires ValidStore(st) && QueryReadable(managed, st, offset, pendingFrame)
    requires ValidStore(q.store) && i < |st.recv| && AgreeFrom(q.store, st, i) && ReadableFrom(managed, q.store, offset, i)
    requires q.cvars.forceReconcile <= 0
    ensures var q' := if Visited(managed, q.store, i) then VisitSlot(q, i, offset, pendingFrame, shouldReconcile) else q;
      q'.rollbackFrame == WorldManager.MergeRequest(q.rollbackFrame, Request(managed, st, q.cvars, offset, shouldReconcile, i)) &&
      q'.rollback == q.rollback + (if Visited(managed, st, i) then {i} else {}) &&
      q'.cvars == q.cvars &&
      q'.store.updated == q.store.updated[i := st.updated[i] && i !in managed] &&
      q'.store.frames == q.store.frames[i := QueriedBuffer(managed, st, q.cvars, offset, pendingFrame, shouldReconcile, i)] &&
      AgreeFrom(q'.store, st, i + 1) && ReadableFrom(managed, q'.store, offset, i + 1)
  {
    assert q.store.frames[i] == st.frames[i] && q.store.updated[i] == st.updated[i];
    var q' := if Visited(managed, q.store, i) then VisitSlot(q, i, offset, pendingFrame, shouldReconcile) else q;
    assert forall j: nat :: i < j < |q.store.recv| ==> Visited(managed, q'.store, j) == Visited(managed, q.store, j);
    if !Visited(managed, q.store, i) {
      assert q.store.updated[i := st.updated[i] && i !in managed] == q.store.updated;
      assert q.store.frames[i := st.frames[i]] == q.store.frames;
    }
  }

  /** The query loop's frame from slot i, once no forced reconcile is pending: the running choice folded with the remaining requests. */
  lemma {:induction false} QueryFromFrame<I, S>(managed: set<nat>, st: Store<I, S>, q: Query<I, S>, i: nat, offset: int, pendingFrame: nat, shouldReconcile: (S, S) -> bool)
    requires ValidStore(st) && QueryReadable(managed, st, offset, pendingFrame)
    requires ValidStore(q.store) && i <= |st.recv| && AgreeFrom(q.store, st, i) && ReadableFrom(managed, q.store, offset, i)
    requires q.cvars.forceReconcile <= 0
    ensures var r := QueryFrom(managed, q, i, offset, pendingFrame, shouldReconcile);
      r.rollbackFrame == WorldManager.RollbackFrameFrom(q.rollbackFrame, Requests(managed, st, q.cvars, offset, pendingFrame, shouldReconcile)[i..]) &&
      r.cvars == q.cvars
    decreases |st.recv| - i
  {
    if i < |st.recv| {
      var reqs := Requests(managed, st, q.cvars, offset, pendingFrame, shouldReconcile);
      StepUnforced(managed, st, q, i, offset, pendingFrame, shouldReconcile);
      var q' := if Visited(managed, q.store, i) then VisitSlot(q, i, offset, pendingFrame, shouldReconcile) else q;
      QueryFromFrame(managed, st, q', i + 1, offset, pendingFrame, shouldReconcile);
      assert reqs[i..][1..] == reqs[i + 1..];
    }
  }

  /** The query loop's marks from slot i: the remaining visited slots join the rollback set. */
  lemma {:induction false} QueryFromMarks<I, S>(managed: set<nat>, st: Store<I, S>, q: Query<I, S>, i: nat, offset: int, pendingFrame: nat, shouldReconcile: (S, S) -> bool)
    requires ValidStore(st) && QueryReadable(managed, st, offset, pendingFrame)
    requires ValidStore(q.store) && i <= |st.recv| && AgreeFrom(q.store, st, i) && ReadableFrom(managed, q.store, offset, i)
    requires q.cvars.forceReconcile <= 0
    ensures QueryFrom(managed, q, i, offset, pendingFrame, shouldReconcile).rollback == q.rollback + VisitedFrom(managed, st, i)
    decreases |st.recv| - i
  {
    if i == |st.recv| {
      assert VisitedFrom(managed, st, i) == {};
    } else {
      StepUnforced(managed, st, q, i, offset, pendingFrame, shouldReconcile);
      var q' := if Visited(managed, q.store, i) then VisitSlot(q, i, offset, pendingFrame, shouldReconcile) else q;
      QueryFromMarks(managed, st, q', i + 1, offset, pendingFrame, shouldReconcile);
      assert VisitedFrom(managed, st, i) == VisitedFrom(managed, st, i + 1) + (if Visited(managed, st, i) then {i} else {});
    }
  }

  /**
   * The query loop's store from slot i: slots before i are left alone; a
   * remaining slot loses its update bit when managed, and only a visited
   * simulated proxy that stays out gets its pending input.
   */
  lemma {:induction false} QueryFromStore<I, S>(managed: set<nat>, st: Store<I, S>, q: Query<I, S>, i: nat, offset: int, pendingFrame: nat, shouldReconcile: (S, S) -> bool)
    requires ValidStore(st) && QueryReadable(managed, st, offset, pendingFrame)
    requires ValidStore(q.store) && i <= |st.recv| && AgreeFrom(q.store, st, i) && ReadableFrom(managed, q.store, offset, i)
    requires q.cvars.forceReconcile <= 0
    ensures var r := QueryFrom(managed, q, i, offset, pendingFrame, shouldReconcile);
      (forall j :: 0 <= j < i ==> r.store.updated[j] == q.store.updated[j] && r.store.frames[j] == q.store.frames[j]) &&
      (forall j: nat :: i <= j < |st.recv| ==>
        r.store.updated[j] == (st.updated[j] && j !in managed) &&
        r.store.frames[j] == QueriedBuffer(managed, st, q.cvars, offset, pendingFrame, shouldReconcile, j))
    decreases |st.recv| - i
  {
    if i < |st.recv| {
      StepUnforced(managed, st, q, i, offset, pendingFrame, shouldReconcile);
      var q' := if Visited(managed, q.store, i) then VisitSlot(q, i, offset, pendingFrame, shouldReconcile) else q;
      QueryFromStore(managed, st, q', i + 1, offset, pendingFrame, shouldReconcile);
    }
  }

  /**
   * Without a forced reconcile, the rollback frame is the earliest local
   * frame among the visited slots whose states call for a reconcile
   * (INDEX_NONE when none does, or when reconciles are skipped); every
   * visited slot is marked and its update bit cleared; only a visited
   * simulated proxy that is not rolled back gets its received input in the
   * pending frame; and the switches are unchanged.
   */
  lemma QueryRollbackUnforced<I, S>(managed: set<nat>, st: Store<I, S>, cvars: Cvars, offset: int, pendingFrame: nat, shouldReconcile: (S, S) -> bool)
    requires ValidStore(st) && QueryReadable(managed, st, offset, pendingFrame)
    requires cvars.forceReconcile <= 0
    ensures var r := QueryRollback(managed, st, cvars, offset, pendingFrame, shouldReconcile);
      r.rollbackFrame == WorldManager.RollbackFrame(Requests(managed, st, cvars, offset, pendingFrame, shouldReconcile)) &&
      r.rollback == VisitedFrom(managed, st, 0) && r.cvars == cvars &&
      (forall j: nat :: j < |st.recv| ==>
        r.store.updated[j] == (st.updated[j] && j !in managed) &&
        r.store.frames[j] == QueriedBuffer(managed, st, cvars, offset, pendingFrame, shouldReconcile, j))
  {
    var reqs := Requests(managed, st, cvars, offset, pendingFrame, shouldReconcile);
    var q := Query(INDEX_NONE, {}, st, cvars);
    QueryFromFrame(managed, st, q, 0, offset, pendingFrame, shouldReconcile);
    QueryFromMarks(managed, st, q, 0, offset, pendingFrame, shouldReconcile);
    QueryFromStore(managed, st, q, 0, offset, pendingFrame, shouldReconcile);
    assert reqs[0..] == reqs;
  }

  /**
   * The rollback frame is INDEX_NONE exactly when no visited slot calls
   * for a reconcile, and otherwise the local frame of one that does, no
   * later than any other's.
   */
  lemma QueryRollbackIsEarliestRequest<I, S>(managed: set<nat>, st: Store<I, S>, cvars: Cvars, offset: int, pendingFrame: nat, shouldReconcile: (S, S) -> bool)
    requires ValidStore(st) && QueryReadable(managed, st, offset, pendingFrame)
    requires cvars.forceReconcile <= 0 && cvars.skipReconcile == 0
    ensures var r := QueryRollback(managed, st, cvars, offset, pendingFrame, shouldReconcile).rollbackFrame;
      var wants := (j: nat) requires j < |st.recv| && Visited(managed, st, j) =>
        shouldReconcile(FrameBuffer.At(st.frames[j], LocalFrame(st, j, offset)).state, st.recv[j].state);
      (r == INDEX_NONE <==> forall j: nat :: j < |st.recv| && Visited(managed, st, j) ==> !wants(j)) &&
      (r != INDEX_NONE ==> exists j: nat :: j < |st.recv| && Visited(managed, st, j) && wants(j) && r == LocalFrame(st, j, offset)) &&
      (forall j: nat :: j < |st.recv| && Visited(managed, st, j) && wants(j) ==> r <= LocalFrame(st, j, offset))
  {
    QueryRollbackUnforced(managed, st, cvars, offset, pendingFrame, shouldReconcile);
    var reqs := Requests(managed, st, cvars, offset, pendingFrame, shouldReconcile);
    var r := QueryRollback(managed, st, cvars, offset, pendingFrame, shouldReconcile).rollbackFrame;
    if r != INDEX_NONE {
      var k :| 0 <= k < |reqs| && reqs[k] == r;
      assert Visited(managed, st, k);
    }
    forall j: nat | j < |st.recv| && Visited(managed, st, j)
      ensures reqs[j] == INDEX_NONE <==> !shouldReconcile(FrameBuffer.At(st.frames[j], LocalFrame(st, j, offset)).state, st.recv[j].state)
    {
    }
  }

  /** Skipping reconciles suppresses every request that a forced reconcile does not make. */
  lemma SkipReconcileSuppressesRequests<I, S>(managed: set<nat>, st: Store<I, S>, cvars: Cvars, offset: int, pendingFrame: nat, shouldReconcile: (S, S) -> bool)
    requires ValidStore(st) && QueryReadable(managed, st, offset, pendingFrame)
    requires cvars.forceReconcile <= 0 && cvars.skipReconcile != 0
    ensures QueryRollback(managed, st, cvars, offset, pendingFrame, shouldReconcile).rollbackFrame == INDEX_NONE
  {
    QueryRollbackUnforced(managed, st, cvars, offset, pendingFrame, shouldReconcile);
  }

  /** Slots the query does not visit leave its result alone. */
  lemma {:induction false} SkipUnvisited<I, S>(managed: set<nat>, q: Query<I, S>, i: nat, k: nat, offset: int, pendingFrame: nat, shouldReconcile: (S, S) -> bool)
    requires ValidStore(q.store) && i <= k <= |q.store.recv| && ReadableFrom(managed, q.store, offset, i)
    requires forall j: nat :: i <= j < k ==> !Visited(managed, q.store, j)
    ensures QueryFrom(managed, q, i, offset, pendingFrame, shouldReconcile) == QueryFrom(managed, q, k, offset, pendingFrame, shouldReconcile)
    decreases k - i
  {
    if i < k {
      SkipUnvisited(managed, q, i + 1, k, offset, pendingFrame, shouldReconcile);
    }
  }

  /**
   * A forced reconcile applies to the first visited slot and then switches
   * itself off. That slot asks for its local frame less the extra frames
   * (never fewer than none); later slots can only bring the frame earlier,
   * and when reconciles are skipped the forced frame is returned as it
   * is: the skip switch suppresses only the requests the states make.
   * With no visited slot the force stays pending.
   */
  lemma ForcedReconcile<I, S>(managed: set<nat>, st: Store<I, S>, cvars: Cvars, offset: int, pendingFrame: nat, shouldReconcile: (S, S) -> bool)
    requires ValidStore(st) && QueryReadable(managed, st, offset, pendingFrame)
    requires cvars.forceReconcile > 0
    ensures var r := QueryRollback(managed, st, cvars, offset, pendingFrame, shouldReconcile);
      VisitedFrom(managed, st, 0) == {} ==> r.rollbackFrame == INDEX_NONE && r.cvars == cvars
    ensures var r := QueryRollback(managed, st, cvars, offset, pendingFrame, shouldReconcile);
      forall k: nat :: k < |st.recv| && Visited(managed, st, k) && (forall j: nat :: j < k ==> !Visited(managed, st, j)) ==>
        var forcedFrame := LocalFrame(st, k, offset) - Max(0, cvars.forceReconcileExtraFrames);
        r.cvars == cvars.(forceReconcile := 0) &&
        (cvars.skipReconcile == 0 && forcedFrame != INDEX_NONE ==> r.rollbackFrame <= forcedFrame) &&
        (cvars.skipReconcile != 0 ==> r.rollbackFrame == forcedFrame)
  {
    var q := Query(INDEX_NONE, {}, st, cvars);
    var r := QueryRollback(managed, st, cvars, offset, pendingFrame, shouldReconcile);
    if VisitedFrom(managed, st, 0) == {} {
      assert forall j: nat :: j < |st.recv| && Visited(managed, st, j) ==> j in VisitedFrom(managed, st, 0);
      SkipUnvisited(managed, q, 0, |st.recv|, offset, pendingFrame, shouldReconcile);
    }
    forall k: nat | k < |st.recv| && Visited(managed, st, k) && (forall j: nat :: j < k ==> !Visited(managed, st, j))
      ensures var forcedFrame := LocalFrame(st, k, offset) - Max(0, cvars.forceReconcileExtraFrames);
        r.cvars == cvars.(forceReconcile := 0) &&
        (cvars.skipReconcile == 0 && forcedFrame != INDEX_NONE ==> r.rollbackFrame <= forcedFrame) &&
        (cvars.skipReconcile != 0 ==> r.rollbackFrame == forcedFrame)
    {
      ForcedFirstVisit(managed, st, cvars, k, offset, pendingFrame, shouldReconcile);
    }
  }

  /** ForcedReconcile for one first visited slot k. */
  lemma ForcedFirstVisit<I, S>(managed: set<nat>, st: Store<I, S>, cvars: Cvars, k: nat, offset: int, pendingFrame: nat, shouldReconcile: (S, S) -> bool)
    requires ValidStore(st) && QueryReadable(managed, st, offset, pendingFrame)
    requires cvars.forceReconcile > 0
    requires k < |st.recv| && Visited(managed, st, k) && forall j: nat :: j < k ==> !Visited(managed, st, j)
    ensures var r := QueryRollback(managed, st, cvars, offset, pendingFrame, shouldReconcile);
      var forcedFrame := LocalFrame(st, k, offset) - Max(0, cvars.forceReconcileExtraFrames);
      r.cvars == cvars.(forceReconcile := 0) &&
      (cvars.skipReconcile == 0 && forcedFrame != INDEX_NONE ==> r.rollbackFrame <= forcedFrame) &&
      (cvars.skipReconcile != 0 ==> r.rollbackFrame == forcedFrame)
  {
    var q := Query(INDEX_NONE, {}, st, cvars);
    SkipUnvisited(managed, q, 0, k, offset, pendingFrame, shouldReconcile);
    var q1 := VisitSlot(q, k, offset, pendingFrame, shouldReconcile);
    var cvars' := cvars.(forceReconcile := 0);
    assert q1.cvars == cvars';
    assert AgreeFrom(q1.store, st, k + 1);
    assert forall j: nat :: k < j < |st.recv| ==> Visited(managed, q1.store, j) == Visited(managed, st, j);
    QueryFromFrame(managed, st, q1, k + 1, offset, pendingFrame, shouldReconcile);
    var reqs := Requests(managed, st, cvars', offset, pendingFrame, shouldReconcile)[k + 1..];
    var forcedFrame := LocalFrame(st, k, offset) - Max(0, cvars.forceReconcileExtraFrames);
    if cvars.skipReconcile != 0 {
      assert q1.rollbackFrame == forcedFrame;
      assert forall j :: 0 <= j < |reqs| ==> reqs[j] == INDEX_NONE;
    } else if forcedFrame != INDEX_NONE {
      assert q1.rollbackFrame <= forcedFrame;
    }
  }

  // ---------------------------------------------------------------------
  // ApplyCorrection and PreStepRollback
  // ---------------------------------------------------------------------

  /**
   * The replay's running result: slots still to correct, the store, and
   * the slots whose frame was pushed to the scene (the order of the pushes
   * is not modelled; each instance's push is independent of the others).
   */
  datatype Correction<I, S> = Correction(rollback: set<nat>, store: Store<I, S>, restored: set<nat>)

  /** A slot whose correction belongs on the given local frame. */
  predicate Due<I, S>(st: Store<I, S>, i: nat, localInputFrame: nat, offset: int)
    requires i < |st.recv|
  {
    LocalFrame(st, i, offset) == localInputFrame
  }

  /** The corrected frame: the received state, and the received input too for a simulated proxy. */
  function Injected<I, S>(rc: ClientRecv<I, S>, local: FrameData<I, S>): (r: FrameData<I, S>)
    ensures r.state == rc.state
    ensures r.input == (if rc.netRole == SimulatedProxy then rc.input else local.input)
  {
    FrameData(if rc.netRole == SimulatedProxy then rc.input else local.input, rc.state)
  }

  /** A buffer with a correction written into its frame. */
  function Corrected<I, S>(buf: FrameBuffer.Buffer<FrameData<I, S>>, rc: ClientRecv<I, S>, localInputFrame: nat): (r: FrameBuffer.Buffer<FrameData<I, S>>)
    requires FrameBuffer.Valid(buf)
    ensures FrameBuffer.Valid(r)
    ensures FrameBuffer.At(r, localInputFrame) == Injected(rc, FrameBuffer.At(buf, localInputFrame))
    ensures forall g: nat :: FrameBuffer.Slot(buf, g) != FrameBuffer.Slot(buf, localInputFrame) ==> FrameBuffer.At(r, g) == FrameBuffer.At(buf, g)
  {
    FrameBuffer.Put(buf, localInputFrame, Injected(rc, FrameBuffer.At(buf, localInputFrame)))
  }

  /** The correction loop over slots i and up. */
  function CorrectFrom<I, S>(c: Correction<I, S>, localInputFrame: nat, offset: int, flush: bool, i: nat): (r: Correction<I, S>)
    requires ValidStore(c.store) && i <= |c.store.recv|
    ensures ValidStore(r.store) && r.store.recv == c.store.recv && r.store.updated == c.store.updated
    decreases |c.store.recv| - i
  {
    if i == |c.store.recv| then c
    else if i in c.rollback && Due(c.store, i, localInputFrame, offset) then
      var c' := Correction(c.rollback - {i},
        c.store.(frames := c.store.frames[i := Corrected(c.store.frames[i], c.store.recv[i], localInputFrame)]),
        if flush then c.restored + {i} else c.restored);
      CorrectFrom(c', localInputFrame, offset, flush, i + 1)
    else CorrectFrom(c, localInputFrame, offset, flush, i + 1)
  }

  /**
   * ApplyCorrection: each slot marked for rollback whose correction
   * belongs on this frame gets the received state written into it and
   * leaves the rollback set; when flushing, its frame is also pushed to
   * the scene at once.
   */
  function ApplyCorrection<I, S>(rollback: set<nat>, st: Store<I, S>, localInputFrame: nat, offset: int, flush: bool): (r: Correction<I, S>)
    requires ValidStore(st)
    ensures ValidStore(r.store) && r.store.recv == st.recv && r.store.updated == st.updated
  {
    CorrectFrom(Correction(rollback, st, {}), localInputFrame, offset, flush, 0)
  }

  /** The marked slots due on a frame, from i on. */
  function DueFrom<I, S>(rollback: set<nat>, st: Store<I, S>, localInputFrame: nat, offset: int, i: nat): set<nat>
  {
    set j: nat | i <= j < |st.recv| && j in rollback && Due(st, j, localInputFrame, offset)
  }

  /** The correction loop's marks and pushes from slot i. */
  lemma {:induction false} CorrectFromMarks<I, S>(c: Correction<I, S>, localInputFrame: nat, offset: int, flush: bool, i: nat)
    requires ValidStore(c.store) && i <= |c.store.recv|
    ensures var r := CorrectFrom(c, localInputFrame, offset, flush, i);
      r.rollback == c.rollback - DueFrom(c.rollback, c.store, localInputFrame, offset, i) &&
      r.restored == c.restored + (if flush then DueFrom(c.rollback, c.store, localInputFrame, offset, i) else {})
    decreases |c.store.recv| - i
  {
    if i < |c.store.recv| {
      var due := DueFrom(c.rollback, c.store, localInputFrame, offset, i);
      if i in c.rollback && Due(c.store, i, localInputFrame, offset) {
        var c' := Correction(c.rollback - {i},
          c.store.(frames := c.store.frames[i := Corrected(c.store.frames[i], c.store.recv[i], localInputFrame)]),
          if flush then c.restored + {i} else c.restored);
        CorrectFromMarks(c', localInputFrame, offset, flush, i + 1);
        assert due == DueFrom(c'.rollback, c'.store, localInputFrame, offset, i + 1) + {i};
      } else {
        CorrectFromMarks(c, localInputFrame, offset, flush, i + 1);
        assert due == DueFrom(c.rollback, c.store, localInputFrame, offset, i + 1);
      }
    }
  }

  /**
   * The buffers rf are the store's with exactly the marked slots from i on
   * that are due on the frame corrected.
   */
  ghost predicate CorrectedFrom<I, S>(rf: seq<FrameBuffer.Buffer<FrameData<I, S>>>, st: Store<I, S>, rollback: set<nat>, localInputFrame: nat, offset: int, i: nat)
    requires ValidStore(st) && |rf| == |st.recv|
  {
    forall j :: 0 <= j < |st.recv| ==>
      rf[j] == (if i <= j && j in rollback && Due(st, j, localInputFrame, offset)
        then Corrected(st.frames[j], st.recv[j], localInputFrame)
        else st.frames[j])
  }

  /** Correcting slot i, then the slots above it, corrects the due marked slots from i on. */
  lemma CorrectedFromDue<I, S>(rf: seq<FrameBuffer.Buffer<FrameData<I, S>>>, st: Store<I, S>, st': Store<I, S>, rollback: set<nat>, localInputFrame: nat, offset: int, i: nat)
    requires ValidStore(st) && i < |st.recv| && |rf| == |st.recv|
    requires i in rollback && Due(st, i, localInputFrame, offset)
    requires st' == st.(frames := st.frames[i := Corrected(st.frames[i], st.recv[i], localInputFrame)])
    requires CorrectedFrom(rf, st', rollback - {i}, localInputFrame, offset, i + 1)
    ensures CorrectedFrom(rf, st, rollback, localInputFrame, offset, i)
  {
    forall j | 0 <= j < |st.recv|
      ensures rf[j] == (if i <= j && j in rollback && Due(st, j, localInputFrame, offset)
        then Corrected(st.frames[j], st.recv[j], localInputFrame) else st.frames[j])
    {
      assert Due(st', j, localInputFrame, offset) == Due(st, j, localInputFrame, offset);
    }
  }

  /** A slot that is not corrected leaves the claim for the slots above it. */
  lemma CorrectedFromSkip<I, S>(rf: seq<FrameBuffer.Buffer<FrameData<I, S>>>, st: Store<I, S>, rollback: set<nat>, localInputFrame: nat, offset: int, i: nat)
    requires ValidStore(st) && i < |st.recv| && |rf| == |st.recv|
    requires !(i in rollback && Due(st, i, localInputFrame, offset))
    requires CorrectedFrom(rf, st, rollback, localInputFrame, offset, i + 1)
    ensures CorrectedFrom(rf, st, rollback, localInputFrame, offset, i)
  {
  }

  /** The correction loop's buffers from slot i: exactly the due marked slots from i on are corrected. */
  lemma {:induction false} CorrectFromFrames<I, S>(c: Correction<I, S>, localInputFrame: nat, offset: int, flush: bool, i: nat)
    requires ValidStore(c.store) && i <= |c.store.recv|
    ensures var r := CorrectFrom(c, localInputFrame, offset, flush, i);
      CorrectedFrom(r.store.frames, c.store, c.rollback, localInputFrame, offset, i)
    decreases |c.store.recv| - i
  {
    var r := CorrectFrom(c, localInputFrame, offset, flush, i);
    if i < |c.store.recv| {
      if i in c.rollback && Due(c.store, i, localInputFrame, offset) {
        var c' := Correction(c.rollback - {i},
          c.store.(frames := c.store.frames[i := Corrected(c.store.frames[i], c.store.recv[i], localInputFrame)]),
          if flush then c.restored + {i} else c.restored);
        CorrectFromFrames(c', localInputFrame, offset, flush, i + 1);
        CorrectedFromDue(r.store.frames, c.store, c'.store, c.rollback, localInputFrame, offset, i);
      } else {
        CorrectFromFrames(c, localInputFrame, offset, flush, i + 1);
        CorrectedFromSkip(r.store.frames, c.store, c.rollback, localInputFrame, offset, i);
      }
    }
  }

  /**
   * ApplyCorrection, all at once: exactly the marked slots due on the frame
   * leave the rollback set; each has the frame overwritten with the
   * received state (and a simulated proxy's received input) and nothing
   * else in its buffer changes; every other buffer is untouched; and the
   * slots pushed to the scene are the corrected ones when flushing, none
   * otherwise.
   */
  lemma ApplyCorrectionInjects<I, S>(rollback: set<nat>, st: Store<I, S>, localInputFrame: nat, offset: int, flush: bool)
    requires ValidStore(st)
    ensures var r := ApplyCorrection(rollback, st, localInputFrame, offset, flush);
      r.rollback == rollback - DueFrom(rollback, st, localInputFrame, offset, 0) &&
      r.restored == (if flush then DueFrom(rollback, st, localInputFrame, offset, 0) else {}) &&
      (forall j :: 0 <= j < |st.recv| ==>
        r.store.frames[j] == (if j in rollback && Due(st, j, localInputFrame, offset)
          then Corrected(st.frames[j], st.recv[j], localInputFrame) else st.frames[j]))
  {
    CorrectFromMarks(Correction(rollback, st, {}), localInputFrame, offset, flush, 0);
    CorrectFromFrames(Correction(rollback, st, {}), localInputFrame, offset, flush, 0);
  }

  /** Each correction is injected at most once: a second pass on the same frame changes nothing and pushes nothing. */
  lemma ApplyCorrectionAtMostOnce<I, S>(rollback: set<nat>, st: Store<I, S>, localInputFrame: nat, offset: int, flush: bool)
    requires ValidStore(st)
    ensures var r := ApplyCorrection(rollback, st, localInputFrame, offset, flush);
      var r2 := ApplyCorrection(r.rollback, r.store, localInputFrame, offset, flush);
      r2.rollback == r.rollback && r2.store == r.store && r2.restored == {}
  {
    var r := ApplyCorrection(rollback, st, localInputFrame, offset, flush);
    ApplyCorrectionInjects(rollback, st, localInputFrame, offset, flush);
    ApplyCorrectionInjects(r.rollback, r.store, localInputFrame, offset, flush);
    assert DueFrom(r.rollback, r.store, localInputFrame, offset, 0) == {};
    var r2 := ApplyCorrection(r.rollback, r.store, localInputFrame, offset, flush);
    assert r2.store.frames == r.store.frames;
  }

  /** The managed slots that exist. */
  function ManagedSlots(managed: set<nat>, n: nat): set<nat>
  {
    set j: nat | j < n && j in managed
  }

  /**
   * PreStepRollback: on the first replayed frame the corrections due on it
   * are injected without flushing, and then every managed slot restores
   * that frame, corrected or not; on later frames the corrections due are
   * injected and flushed at once. The cue dispatcher's rollback is not
   * part of this model.
   */
  function PreStepRollback<I, S>(managed: set<nat>, rollback: set<nat>, st: Store<I, S>, localInputFrame: nat, offset: int, firstStep: bool): (r: Correction<I, S>)
    requires ValidStore(st)
    ensures ValidStore(r.store) && r.store.recv == st.recv
  {
    if firstStep then
      var c := ApplyCorrection(rollback, st, localInputFrame, offset, false);
      c.(restored := ManagedSlots(managed, |st.recv|))
    else ApplyCorrection(rollback, st, localInputFrame, offset, true)
  }

  /**
   * The first replayed frame restores every managed slot whether or not it
   * had a correction; a later frame restores exactly the slots corrected on
   * it. Either way the corrections due on the frame are injected and leave
   * the rollback set.
   */
  lemma PreStepRollbackRestores<I, S>(managed: set<nat>, rollback: set<nat>, st: Store<I, S>, localInputFrame: nat, offset: int, firstStep: bool)
    requires ValidStore(st)
    ensures var r := PreStepRollback(managed, rollback, st, localInputFrame, offset, firstStep);
      (firstStep ==> forall j: nat :: j in r.restored <==> j < |st.recv| && j in managed) &&
      (!firstStep ==> forall j: nat :: j in r.restored <==> j < |st.recv| && j in rollback && Due(st, j, localInputFrame, offset)) &&
      (forall j: nat :: j in r.rollback <==> j in rollback && !(j < |st.recv| && Due(st, j, localInputFrame, offset))) &&
      (forall j: nat :: j < |st.recv| && j in rollback && Due(st, j, localInputFrame, offset) ==>
        FrameBuffer.At(r.store.frames[j], localInputFrame) == Injected(st.recv[j], FrameBuffer.At(st.frames[j], localInputFrame)))
  {
    ApplyCorrectionInjects(rollback, st, localInputFrame, offset, !firstStep);
  }

  // ---------------------------------------------------------------------
  // Independent-tick Reconcile
  // ---------------------------------------------------------------------

  /** What an independent reconcile asks of the instances: a state pushed to the scene, or one resimulated tick. */
  datatype ReplayEvent = Restored(slot: nat, frame: nat) | Ticked(slot: nat, step: TickState.NetSimTimeStep, endTimeMS: int)

  /** The resimulated step for one input frame, read from the variable tick state's frames. */
  function ReplayStep(tickFrames: FrameBuffer.Buffer<TickState.Frame>, frame: nat): (step: TickState.NetSimTimeStep)
    requires FrameBuffer.Valid(tickFrames)
    ensures step.frame == frame + 1
  {
    var data := FrameBuffer.At(tickFrames, frame);
    TickState.NetSimTimeStep(data.deltaMS, data.totalMS, frame + 1)
  }

  /**
   * The replay of one instance's frames [frame, endFrame): each tick reads
   * its input frame and writes the frame after it. The tick itself is the
   * model definition's simulation, a parameter.
   */
  function Replay<I, S>(
    buf: FrameBuffer.Buffer<FrameData<I, S>>, tickFrames: FrameBuffer.Buffer<TickState.Frame>, slot: nat,
    frame: nat, endFrame: int, tick: (FrameData<I, S>, TickState.NetSimTimeStep) -> FrameData<I, S>): (r: (FrameBuffer.Buffer<FrameData<I, S>>, seq<ReplayEvent>))
    requires FrameBuffer.Valid(buf) && FrameBuffer.Valid(tickFrames)
    ensures FrameBuffer.Valid(r.0) && FrameBuffer.Capacity(r.0) == FrameBuffer.Capacity(buf)
    ensures |r.1| == Max(0, endFrame - frame)
    ensures forall k :: 0 <= k < |r.1| ==>
      var step := ReplayStep(tickFrames, frame + k);
      r.1[k] == Ticked(slot, step, step.totalSimulationTime + step.stepMS)
    decreases endFrame - frame
  {
    if frame >= endFrame then (buf, [])
    else
      var step := ReplayStep(tickFrames, frame);
      var buf' := FrameBuffer.Put(buf, frame + 1, tick(FrameBuffer.At(buf, frame), step));
      var rest := Replay(buf', tickFrames, slot, frame + 1, endFrame, tick);
      (rest.0, [Ticked(slot, step, step.totalSimulationTime + step.stepMS)] + rest.1)
  }

  /**
   * One visited slot of an independent reconcile: when the verdict calls
   * for it, the received state overwrites the local frame of the server
   * frame, is pushed to the scene, and the frames from there up to the
   * pending frame are replayed.
   */
  function ReconcileSlot<I, S>(
    st: Store<I, S>, i: nat, tickFrames: FrameBuffer.Buffer<TickState.Frame>, pendingFrame: nat,
    shouldReconcile: (S, S) -> bool, tick: (FrameData<I, S>, TickState.NetSimTimeStep) -> FrameData<I, S>): (r: (FrameBuffer.Buffer<FrameData<I, S>>, seq<ReplayEvent>))
    requires ValidStore(st) && i < |st.recv| && st.recv[i].serverFrame >= 0 && FrameBuffer.Valid(tickFrames)
    ensures FrameBuffer.Valid(r.0)
  {
    var rc := st.recv[i];
    var local := rc.serverFrame;
    var buf := st.frames[i];
    if shouldReconcile(FrameBuffer.At(buf, local).state, rc.state) then
      var buf' := FrameBuffer.Put(buf, local, FrameBuffer.At(buf, local).(state := rc.state));
      var replay := Replay(buf', tickFrames, i, local, pendingFrame, tick);
      (replay.0, [Restored(i, local)] + replay.1)
    else (buf, [])
  }

  /**
   * One slot's reconcile: a mismatch pushes the received state for the
   * server frame and then resimulates each frame from it up to the pending
   * frame, in order, each tick writing the frame after its input; a match
   * leaves the buffer as it was and asks nothing.
   */
  lemma ReconcileSlotReplays<I, S>(
    st: Store<I, S>, i: nat, tickFrames: FrameBuffer.Buffer<TickState.Frame>, pendingFrame: nat,
    shouldReconcile: (S, S) -> bool, tick: (FrameData<I, S>, TickState.NetSimTimeStep) -> FrameData<I, S>)
    requires ValidStore(st) && i < |st.recv| && st.recv[i].serverFrame >= 0 && FrameBuffer.Valid(tickFrames)
    ensures var local := st.recv[i].serverFrame;
      var r := ReconcileSlot(st, i, tickFrames, pendingFrame, shouldReconcile, tick);
      var mismatch := shouldReconcile(FrameBuffer.At(st.frames[i], local).state, st.recv[i].state);
      (!mismatch ==> r == (st.frames[i], [])) &&
      (mismatch ==>
        |r.1| == 1 + Max(0, pendingFrame - local) && r.1[0] == Restored(i, local) &&
        (forall k :: 1 <= k < |r.1| ==> r.1[k].Ticked? && r.1[k].step.frame == local + k) &&
        (pendingFrame <= local ==> FrameBuffer.At(r.0, local).state == st.recv[i].state))
  {
    var local := st.recv[i].serverFrame;
    var r := ReconcileSlot(st, i, tickFrames, pendingFrame, shouldReconcile, tick);
    if shouldReconcile(FrameBuffer.At(st.frames[i], local).state, st.recv[i].state) {
      var buf' := FrameBuffer.Put(st.frames[i], local, FrameBuffer.At(st.frames[i], local).(state := st.recv[i].state));
      var replay := Replay(buf', tickFrames, i, local, pendingFrame, tick);
      assert r.1 == [Restored(i, local)] + replay.1;
      forall k | 1 <= k < |r.1|
        ensures r.1[k].Ticked? && r.1[k].step.frame == local + k
      {
        assert r.1[k] == replay.1[k - 1];
      }
    }
  }

  /** The independent reconcile's running result: the store and the requests made so far. */
  datatype Reconciled<I, S> = Reconciled(store: Store<I, S>, events: seq<ReplayEvent>)

  /** Every visited slot's server frame indexes its buffer. */
  predicate ReconcileReadable<I, S>(managed: set<nat>, st: Store<I, S>)
    requires ValidStore(st)
  {
    forall i: nat :: i < |st.recv| && Visited(managed, st, i) ==> st.recv[i].serverFrame >= 0
  }

  /** The requests slot i makes on its own: its reconcile's, when the query visits it. */
  function OwnEvents<I, S>(
    managed: set<nat>, st: Store<I, S>, i: nat, tickFrames: FrameBuffer.Buffer<TickState.Frame>, pendingFrame: nat,
    shouldReconcile: (S, S) -> bool, tick: (FrameData<I, S>, TickState.NetSimTimeStep) -> FrameData<I, S>): seq<ReplayEvent>
    requires ValidStore(st) && i < |st.recv| && FrameBuffer.Valid(tickFrames) && ReconcileReadable(managed, st)
  {
    if Visited(managed, st, i) then ReconcileSlot(st, i, tickFrames, pendingFrame, shouldReconcile, tick).1 else []
  }

  /** The buffer slot i ends with: its reconciled buffer when the query visits it, else its own. */
  function ReconciledBuffer<I, S>(
    managed: set<nat>, st: Store<I, S>, i: nat, tickFrames: FrameBuffer.Buffer<TickState.Frame>, pendingFrame: nat,
    shouldReconcile: (S, S) -> bool, tick: (FrameData<I, S>, TickState.NetSimTimeStep) -> FrameData<I, S>): FrameBuffer.Buffer<FrameData<I, S>>
    requires ValidStore(st) && i < |st.recv| && FrameBuffer.Valid(tickFrames) && ReconcileReadable(managed, st)
  {
    if Visited(managed, st, i) then ReconcileSlot(st, i, tickFrames, pendingFrame, shouldReconcile, tick).0 else st.frames[i]
  }

  /**
   * One slot of the independent reconcile loop: a visited slot is
   * reconciled and its update bit cleared; any other slot is left alone.
   */
  function ReconcileOne<I, S>(
    managed: set<nat>, c: Reconciled<I, S>, i: nat, tickFrames: FrameBuffer.Buffer<TickState.Frame>, pendingFrame: nat,
    shouldReconcile: (S, S) -> bool, tick: (FrameData<I, S>, TickState.NetSimTimeStep) -> FrameData<I, S>): (r: Reconciled<I, S>)
    requires ValidStore(c.store) && i < |c.store.recv| && FrameBuffer.Valid(tickFrames) && ReconcileReadable(managed, c.store)
    ensures ValidStore(r.store) && r.store.recv == c.store.recv && ReconcileReadable(managed, r.store)
    ensures r.events == c.events + OwnEvents(managed, c.store, i, tickFrames, pendingFrame, shouldReconcile, tick)
  {
    if Visited(managed, c.store, i) then
      var slot := ReconcileSlot(c.store, i, tickFrames, pendingFrame, shouldReconcile, tick);
      var st' := Store(c.store.recv, c.store.updated[i := false], c.store.frames[i := slot.0]);
      assert forall j: nat :: j < |st'.recv| && Visited(managed, st', j) ==> Visited(managed, c.store, j);
      Reconciled(st', c.events + slot.1)
    else c
  }

  /** The independent reconcile loop over slots i and up. */
  function ReconcileFrom<I, S>(
    managed: set<nat>, c: Reconciled<I, S>, i: nat, tickFrames: FrameBuffer.Buffer<TickState.Frame>, pendingFrame: nat,
    shouldReconcile: (S, S) -> bool, tick: (FrameData<I, S>, TickState.NetSimTimeStep) -> FrameData<I, S>): (r: Reconciled<I, S>)
    requires ValidStore(c.store) && i <= |c.store.recv| && FrameBuffer.Valid(tickFrames) && ReconcileReadable(managed, c.store)
    ensures ValidStore(r.store) && r.store.recv == c.store.recv
    decreases |c.store.recv| - i
  {
    if i == |c.store.recv| then c
    else ReconcileFrom(managed, ReconcileOne(managed, c, i, tickFrames, pendingFrame, shouldReconcile, tick), i + 1, tickFrames, pendingFrame, shouldReconcile, tick)
  }

  /**
   * Reconcile (independent tick): every managed slot with fresh data is
   * checked against its own server frame (there is no frame offset) and
   * replayed when it mismatches; its update bit is cleared either way.
   */
  function Reconcile<I, S>(
    managed: set<nat>, st: Store<I, S>, tickFrames: FrameBuffer.Buffer<TickState.Frame>, pendingFrame: nat,
    shouldReconcile: (S, S) -> bool, tick: (FrameData<I, S>, TickState.NetSimTimeStep) -> FrameData<I, S>): (r: Reconciled<I, S>)
    requires ValidStore(st) && FrameBuffer.Valid(tickFrames) && ReconcileReadable(managed, st)
    ensures ValidStore(r.store) && r.store.recv == st.recv
  {
    ReconcileFrom(managed, Reconciled(st, []), 0, tickFrames, pendingFrame, shouldReconcile, tick)
  }

  /** The requests the slots from i on make, in slot order. */
  function EventsFrom<I, S>(
    managed: set<nat>, st: Store<I, S>, i: nat, tickFrames: FrameBuffer.Buffer<TickState.Frame>, pendingFrame: nat,
    shouldReconcile: (S, S) -> bool, tick: (FrameData<I, S>, TickState.NetSimTimeStep) -> FrameData<I, S>): seq<ReplayEvent>
    requires ValidStore(st) && i <= |st.recv| && FrameBuffer.Valid(tickFrames) && ReconcileReadable(managed, st)
    decreases |st.recv| - i
  {
    if i == |st.recv| then []
    else OwnEvents(managed, st, i, tickFrames, pendingFrame, shouldReconcile, tick) + EventsFrom(managed, st, i + 1, tickFrames, pendingFrame, shouldReconcile, tick)
  }

  /** One step of the independent reconcile loop, against the store it started from. */
  lemma {:induction false} ReconcileStep<I, S>(
    managed: set<nat>, st: Store<I, S>, c: Reconciled<I, S>, i: nat, tickFrames: FrameBuffer.Buffer<TickState.Frame>, pendingFrame: nat,
    shouldReconcile: (S, S) -> bool, tick: (FrameData<I, S>, TickState.NetSimTimeStep) -> FrameData<I, S>)
    requires ValidStore(st) && FrameBuffer.Valid(tickFrames) && ReconcileReadable(managed, st)
    requires ValidStore(c.store) && i < |st.recv| && AgreeFrom(c.store, st, i) && ReconcileReadable(managed, c.store)
    ensures OwnEvents(managed, c.store, i, tickFrames, pendingFrame, shouldReconcile, tick) == OwnEvents(managed, st, i, tickFrames, pendingFrame, shouldReconcile, tick)
    ensures var c' := ReconcileOne(managed, c, i, tickFrames, pendingFrame, shouldReconcile, tick);
      && AgreeFrom(c'.store, st, i + 1)
      && (forall j :: 0 <= j < i ==> c'.store.updated[j] == c.store.updated[j] && c'.store.frames[j] == c.store.frames[j])
      && c'.store.updated[i] == (st.updated[i] && i !in managed)
      && c'.store.frames[i] == ReconciledBuffer(managed, st, i, tickFrames, pendingFrame, shouldReconcile, tick)
  {
    assert c.store.frames[i] == st.frames[i] && c.store.updated[i] == st.updated[i];
    if Visited(managed, st, i) {
      assert ReconcileSlot(c.store, i, tickFrames, pendingFrame, shouldReconcile, tick) == ReconcileSlot(st, i, tickFrames, pendingFrame, shouldReconcile, tick);
    }
  }

  /** The independent reconcile loop's requests from slot i. */
  lemma {:induction false} ReconcileFromEvents<I, S>(
    managed: set<nat>, st: Store<I, S>, c: Reconciled<I, S>, i: nat, tickFrames: FrameBuffer.Buffer<TickState.Frame>, pendingFrame: nat,
    shouldReconcile: (S, S) -> bool, tick: (FrameData<I, S>, TickState.NetSimTimeStep) -> FrameData<I, S>)
    requires ValidStore(st) && FrameBuffer.Valid(tickFrames) && ReconcileReadable(managed, st)
    requires ValidStore(c.store) && i <= |st.recv| && AgreeFrom(c.store, st, i) && ReconcileReadable(managed, c.store)
    ensures ReconcileFrom(managed, c, i, tickFrames, pendingFrame, shouldReconcile, tick).events ==
      c.events + EventsFrom(managed, st, i, tickFrames, pendingFrame, shouldReconcile, tick)
    decreases |st.recv| - i
  {
    if i < |st.recv| {
      ReconcileStep(managed, st, c, i, tickFrames, pendingFrame, shouldReconcile, tick);
      ReconcileFromEvents(managed, st, ReconcileOne(managed, c, i, tickFrames, pendingFrame, shouldReconcile, tick), i + 1, tickFrames, pendingFrame, shouldReconcile, tick);
      ReconcileEventsStep(managed, st, c, i, tickFrames, pendingFrame, shouldReconcile, tick);
    }
  }

  /** The requests from slot i, given those from slot i + 1 after one step. */
  lemma {:induction false} ReconcileEventsStep<I, S>(
    managed: set<nat>, st: Store<I, S>, c: Reconciled<I, S>, i: nat, tickFrames: FrameBuffer.Buffer<TickState.Frame>, pendingFrame: nat,
    shouldReconcile: (S, S) -> bool, tick: (FrameData<I, S>, TickState.NetSimTimeStep) -> FrameData<I, S>)
    requires ValidStore(st) && FrameBuffer.Valid(tickFrames) && ReconcileReadable(managed, st)
    requires ValidStore(c.store) && i < |st.recv| && c.store.recv == st.recv && ReconcileReadable(managed, c.store)
    requires OwnEvents(managed, c.store, i, tickFrames, pendingFrame, shouldReconcile, tick) == OwnEvents(managed, st, i, tickFrames, pendingFrame, shouldReconcile, tick)
    requires var c' := ReconcileOne(managed, c, i, tickFrames, pendingFrame, shouldReconcile, tick);
      ReconcileFrom(managed, c', i + 1, tickFrames, pendingFrame, shouldReconcile, tick).events == c'.events + EventsFrom(managed, st, i + 1, tickFrames, pendingFrame, shouldReconcile, tick)
    ensures ReconcileFrom(managed, c, i, tickFrames, pendingFrame, shouldReconcile, tick).events == c.events + EventsFrom(managed, st, i, tickFrames, pendingFrame, shouldReconcile, tick)
  {
    var c' := ReconcileOne(managed, c, i, tickFrames, pendingFrame, shouldReconcile, tick);
    var own := OwnEvents(managed, st, i, tickFrames, pendingFrame, shouldReconcile, tick);
    var rest := EventsFrom(managed, st, i + 1, tickFrames, pendingFrame, shouldReconcile, tick);
    assert ReconcileFrom(managed, c, i, tickFrames, pendingFrame, shouldReconcile, tick) == ReconcileFrom(managed, c', i + 1, tickFrames, pendingFrame, shouldReconcile, tick);
    assert EventsFrom(managed, st, i, tickFrames, pendingFrame, shouldReconcile, tick) == own + rest;
    var whole := ReconcileFrom(managed, c, i, tickFrames, pendingFrame, shouldReconcile, tick).events;
    assert whole == c'.events + rest;
    assert c'.events == c.events + own;
    EventsRegroup(whole, c.events, own, rest);
  }

  lemma EventsRegroup(whole: seq<ReplayEvent>, a: seq<ReplayEvent>, b: seq<ReplayEvent>, c: seq<ReplayEvent>)
    requires whole == (a + b) + c
    ensures whole == a + (b + c)
  {
  }

  /** The independent reconcile loop's store from slot i. */
  lemma {:induction false} ReconcileFromStore<I, S>(
    managed: set<nat>, st: Store<I, S>, c: Reconciled<I, S>, i: nat, tickFrames: FrameBuffer.Buffer<TickState.Frame>, pendingFrame: nat,
    shouldReconcile: (S, S) -> bool, tick: (FrameData<I, S>, TickState.NetSimTimeStep) -> FrameData<I, S>)
    requires ValidStore(st) && FrameBuffer.Valid(tickFrames) && ReconcileReadable(managed, st)
    requires ValidStore(c.store) && i <= |st.recv| && AgreeFrom(c.store, st, i) && ReconcileReadable(managed, c.store)
    ensures var r := ReconcileFrom(managed, c, i, tickFrames, pendingFrame, shouldReconcile, tick);
      (forall j :: 0 <= j < i ==> r.store.updated[j] == c.store.updated[j] && r.store.frames[j] == c.store.frames[j]) &&
      (forall j: nat :: i <= j < |st.recv| ==>
        r.store.updated[j] == (st.updated[j] && j !in managed) &&
        r.store.frames[j] == ReconciledBuffer(managed, st, j, tickFrames, pendingFrame, shouldReconcile, tick))
    decreases |st.recv| - i
  {
    if i < |st.recv| {
      ReconcileStep(managed, st, c, i, tickFrames, pendingFrame, shouldReconcile, tick);
      var c' := ReconcileOne(managed, c, i, tickFrames, pendingFrame, shouldReconcile, tick);
      ReconcileFromStore(managed, st, c', i + 1, tickFrames, pendingFrame, shouldReconcile, tick);
      var r := ReconcileFrom(managed, c', i + 1, tickFrames, pendingFrame, shouldReconcile, tick);
      assert ReconcileFrom(managed, c, i, tickFrames, pendingFrame, shouldReconcile, tick) == r;
      StoreAfterStep(managed, st, c.store, c'.store, r.store, i, tickFrames, pendingFrame, shouldReconcile, tick);
    }
  }

  /** The store from slot i, given the store from slot i + 1 after one step. */
  lemma StoreAfterStep<I, S>(
    managed: set<nat>, st: Store<I, S>, c: Store<I, S>, c1: Store<I, S>, r: Store<I, S>, i: nat, tickFrames: FrameBuffer.Buffer<TickState.Frame>, pendingFrame: nat,
    shouldReconcile: (S, S) -> bool, tick: (FrameData<I, S>, TickState.NetSimTimeStep) -> FrameData<I, S>)
    requires ValidStore(st) && FrameBuffer.Valid(tickFrames) && ReconcileReadable(managed, st)
    requires ValidStore(c) && ValidStore(c1) && ValidStore(r)
    requires i < |st.recv| == |c.recv| == |c1.recv| == |r.recv|
    requires forall j :: 0 <= j < i + 1 ==> r.updated[j] == c1.updated[j] && r.frames[j] == c1.frames[j]
    requires forall j: nat :: i + 1 <= j < |st.recv| ==>
      r.updated[j] == (st.updated[j] && j !in managed) &&
      r.frames[j] == ReconciledBuffer(managed, st, j, tickFrames, pendingFrame, shouldReconcile, tick)
    requires forall j :: 0 <= j < i ==> c1.updated[j] == c.updated[j] && c1.frames[j] == c.frames[j]
    requires c1.updated[i] == (st.updated[i] && i !in managed)
    requires c1.frames[i] == ReconciledBuffer(managed, st, i, tickFrames, pendingFrame, shouldReconcile, tick)
    ensures forall j :: 0 <= j < i ==> r.updated[j] == c.updated[j] && r.frames[j] == c.frames[j]
    ensures forall j: nat :: i <= j < |st.recv| ==>
      r.updated[j] == (st.updated[j] && j !in managed) &&
      r.frames[j] == ReconciledBuffer(managed, st, j, tickFrames, pendingFrame, shouldReconcile, tick)
  {
  }

  /**
   * The independent reconcile as a whole: the requests are the visited
   * slots' own reconciles in slot order; a visited slot's buffer is its
   * reconciled buffer and every other buffer is untouched; and the update
   * bits of the managed slots are cleared.
   */
  lemma ReconcileVisitsInOrder<I, S>(
    managed: set<nat>, st: Store<I, S>, tickFrames: FrameBuffer.Buffer<TickState.Frame>, pendingFrame: nat,
    shouldReconcile: (S, S) -> bool, tick: (FrameData<I, S>, TickState.NetSimTimeStep) -> FrameData<I, S>)
    requires ValidStore(st) && FrameBuffer.Valid(tickFrames) && ReconcileReadable(managed, st)
    ensures var r := Reconcile(managed, st, tickFrames, pendingFrame, shouldReconcile, tick);
      r.events == EventsFrom(managed, st, 0, tickFrames, pendingFrame, shouldReconcile, tick) &&
      (forall j: nat :: j < |st.recv| ==>
        r.store.updated[j] == (st.updated[j] && j !in managed) &&
        r.store.frames[j] == ReconciledBuffer(managed, st, j, tickFrames, pendingFrame, shouldReconcile, tick))
  {
    ReconcileFromEvents(managed, st, Reconciled(st, []), 0, tickFrames, pendingFrame, shouldReconcile, tick);
    ReconcileFromStore(managed, st, Reconciled(st, []), 0, tickFrames, pendingFrame, shouldReconcile, tick);
  }
}
