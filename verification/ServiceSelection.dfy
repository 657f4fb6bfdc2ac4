/**
 * ConfigureInstance: the service mask an instance subscribes to, chosen by
 * its archetype's ticking mode, its role, whether it has a net connection,
 * which state types its model has and the config's network LOD; the cue
 * replication target a non-authority accepts; and where the instance's
 * cached view points and which frame-buffer entry is carried over when a
 * configured instance is configured again.
 */
module ServiceSelection {
  import opened Common
  import opened Bits
  import opened ServiceFlags
  import ModelDriver
  import CueTraits
  import FrameBuffer
  import TickState
  import ServiceRegistry

  // ---------------------------------------------------------------------
  // Service mask
  // ---------------------------------------------------------------------

  /** The independent-mode role switch. */
  function IndependentServices(role: NetRole, hasNetConnection: bool, m: ModelDriver.ModelDef): seq<Service>
  {
    match role
    case Authority =>
      if hasNetConnection then [IndependentRemoteTick, IndependentRemotePhysics, IndependentRemoteFinalize]
      else if m.hasSimulation then
        (if m.hasInput then [IndependentLocalInput] else []) +
        [IndependentLocalTick, IndependentLocalPhysics, IndependentLocalFinalize]
      else []
    case AutonomousProxy =>
      [IndependentLocalInput, IndependentLocalTick, IndependentLocalPhysics, IndependentLocalFinalize, ServerRPC, IndependentRollback]
    case SimulatedProxy => [IndependentInterpolate]
    case RoleNone => []
  }

  /** The fixed-mode role switch: input polling and the server RPC. */
  function FixedRoleServices(role: NetRole, hasNetConnection: bool, m: ModelDriver.ModelDef): seq<Service>
  {
    match role
    case Authority =>
      if m.hasSimulation && m.hasInput then [if hasNetConnection then FixedInputRemote else FixedInputLocal] else []
    case AutonomousProxy => [FixedInputLocal, FixedServerRPC]
    case _ => []
  }

  /** Fixed smoothing is added only when the model finalizes a smoothing frame and the setting is on. */
  function SmoothingServices(m: ModelDriver.ModelDef, enableFixedSmoothing: bool): seq<Service>
  {
    if m.hasFinalizeSmoothingFrame && enableFixedSmoothing then [FixedSmoothing] else []
  }

  /** The fixed-mode authority/non-authority block; non-authorities choose by network LOD. */
  function FixedTickServices(role: NetRole, m: ModelDriver.ModelDef, networkLod: nat, enableFixedSmoothing: bool): seq<Service>
  {
    if role.Authority? then
      if m.hasSimulation then [FixedTick, FixedPhysics, FixedFinalize] + SmoothingServices(m, enableFixedSmoothing) else []
    else if networkLod == ModelDriver.LOD_FORWARD_PREDICT then
      [FixedRollback, FixedPhysics, FixedPhysicsRollback] +
      (if m.hasSimulation then [FixedTick, FixedFinalize] + SmoothingServices(m, enableFixedSmoothing) else [])
    else if networkLod == ModelDriver.LOD_INTERPOLATED then [FixedInterpolate]
    else []
  }

  /** Every service OR-ed into the mask, in the order ConfigureInstance adds them. */
  function SelectedServices(tickingMode: nat, role: NetRole, hasNetConnection: bool, m: ModelDriver.ModelDef, networkLod: nat, enableFixedSmoothing: bool): seq<Service>
  {
    if tickingMode == ModelDriver.POLICY_INDEPENDENT then IndependentServices(role, hasNetConnection, m)
    else if tickingMode == ModelDriver.POLICY_FIXED then
      FixedRoleServices(role, hasNetConnection, m) + FixedTickServices(role, m, networkLod, enableFixedSmoothing)
    else []
  }

  /**
   * The service mask ConfigureInstance registers. It never mixes the two
   * groups: a fixed archetype only gets fixed services, an independent one
   * only independent ones, and any other ticking mode gets none.
   */
  function SelectServiceMask(tickingMode: nat, role: NetRole, hasNetConnection: bool, m: ModelDriver.ModelDef, networkLod: nat, enableFixedSmoothing: bool): (mask: nat)
    ensures ValidMask(mask)
    ensures tickingMode == ModelDriver.POLICY_FIXED ==> forall s :: HasFlag(mask, s) ==> IsFixedService(s)
    ensures tickingMode == ModelDriver.POLICY_INDEPENDENT ==> forall s :: HasFlag(mask, s) ==> !IsFixedService(s)
    ensures tickingMode != ModelDriver.POLICY_FIXED && tickingMode != ModelDriver.POLICY_INDEPENDENT ==> mask == 0
    ensures ServiceRegistry.OneGroup(mask)
  {
    var ss := SelectedServices(tickingMode, role, hasNetConnection, m, networkLod, enableFixedSmoothing);
    var mask := MaskOf(ss);
    FixedSelectionIsFixed(role, hasNetConnection, m, networkLod, enableFixedSmoothing);
    IndependentSelectionIsIndependent(role, hasNetConnection, m);
    HasAnyIff(mask);
    mask
  }

  lemma FixedSelectionIsFixed(role: NetRole, hasNetConnection: bool, m: ModelDriver.ModelDef, networkLod: nat, enableFixedSmoothing: bool)
    ensures forall s :: s in SelectedServices(ModelDriver.POLICY_FIXED, role, hasNetConnection, m, networkLod, enableFixedSmoothing) ==> IsFixedService(s)
  {
    var a := FixedRoleServices(role, hasNetConnection, m);
    var sm := SmoothingServices(m, enableFixedSmoothing);
    assert forall s :: s in sm ==> IsFixedService(s);
    assert forall s :: s in a ==> IsFixedService(s);
    var b := FixedTickServices(role, m, networkLod, enableFixedSmoothing);
    assert forall s :: s in b ==> IsFixedService(s);
    assert SelectedServices(ModelDriver.POLICY_FIXED, role, hasNetConnection, m, networkLod, enableFixedSmoothing) == a + b;
  }

  lemma IndependentSelectionIsIndependent(role: NetRole, hasNetConnection: bool, m: ModelDriver.ModelDef)
    ensures forall s :: s in IndependentServices(role, hasNetConnection, m) ==> !IsFixedService(s)
  {
  }

  /** The flags of the selected mask are exactly the services ConfigureInstance OR-ed in. */
  lemma SelectedFlags(tickingMode: nat, role: NetRole, hasNetConnection: bool, m: ModelDriver.ModelDef, networkLod: nat, enableFixedSmoothing: bool, s: Service)
    ensures HasFlag(SelectServiceMask(tickingMode, role, hasNetConnection, m, networkLod, enableFixedSmoothing), s)
      <==> s in SelectedServices(tickingMode, role, hasNetConnection, m, networkLod, enableFixedSmoothing)
  {
  }

  /**
   * A fixed-tick autonomous proxy polls local input and sends it to the
   * server, and when forward predicted it also rolls back and ticks
   * physics.
   */
  lemma FixedAutonomousProxyServices(hasNetConnection: bool, m: ModelDriver.ModelDef, networkLod: nat, enableFixedSmoothing: bool)
    ensures var mask := SelectServiceMask(ModelDriver.POLICY_FIXED, AutonomousProxy, hasNetConnection, m, networkLod, enableFixedSmoothing);
      HasFlag(mask, FixedInputLocal) && HasFlag(mask, FixedServerRPC) && !HasFlag(mask, FixedInputRemote) &&
      (networkLod == ModelDriver.LOD_FORWARD_PREDICT ==>
        HasFlag(mask, FixedRollback) && HasFlag(mask, FixedPhysics) && HasFlag(mask, FixedPhysicsRollback))
  {
    FixedAutonomousList(hasNetConnection, m, networkLod, enableFixedSmoothing);
    SelectedFlags(ModelDriver.POLICY_FIXED, AutonomousProxy, hasNetConnection, m, networkLod, enableFixedSmoothing, FixedInputLocal);
    SelectedFlags(ModelDriver.POLICY_FIXED, AutonomousProxy, hasNetConnection, m, networkLod, enableFixedSmoothing, FixedServerRPC);
    SelectedFlags(ModelDriver.POLICY_FIXED, AutonomousProxy, hasNetConnection, m, networkLod, enableFixedSmoothing, FixedInputRemote);
    if networkLod == ModelDriver.LOD_FORWARD_PREDICT {
      SelectedFlags(ModelDriver.POLICY_FIXED, AutonomousProxy, hasNetConnection, m, networkLod, enableFixedSmoothing, FixedRollback);
      SelectedFlags(ModelDriver.POLICY_FIXED, AutonomousProxy, hasNetConnection, m, networkLod, enableFixedSmoothing, FixedPhysics);
      SelectedFlags(ModelDriver.POLICY_FIXED, AutonomousProxy, hasNetConnection, m, networkLod, enableFixedSmoothing, FixedPhysicsRollback);
    }
  }

  lemma FixedAutonomousList(hasNetConnection: bool, m: ModelDriver.ModelDef, networkLod: nat, enableFixedSmoothing: bool)
    ensures var ss := SelectedServices(ModelDriver.POLICY_FIXED, AutonomousProxy, hasNetConnection, m, networkLod, enableFixedSmoothing);
      FixedInputLocal in ss && FixedServerRPC in ss && FixedInputRemote !in ss &&
      (networkLod == ModelDriver.LOD_FORWARD_PREDICT ==>
        FixedRollback in ss && FixedPhysics in ss && FixedPhysicsRollback in ss)
  {
    var tick := FixedTickServices(AutonomousProxy, m, networkLod, enableFixedSmoothing);
    var ss := SelectedServices(ModelDriver.POLICY_FIXED, AutonomousProxy, hasNetConnection, m, networkLod, enableFixedSmoothing);
    assert ss == [FixedInputLocal, FixedServerRPC] + tick;
    assert FixedInputRemote !in tick;
    if networkLod == ModelDriver.LOD_FORWARD_PREDICT {
      assert tick[0] == FixedRollback && tick[1] == FixedPhysics && tick[2] == FixedPhysicsRollback;
    }
  }

  /**
   * A fixed-tick authority with a simulation ticks, steps physics and
   * finalizes; it polls its input locally without a net connection and
   * takes it from the remote client with one; it never rolls back or
   * interpolates.
   */
  lemma FixedAuthorityServices(hasNetConnection: bool, m: ModelDriver.ModelDef, networkLod: nat, enableFixedSmoothing: bool)
    requires m.hasSimulation
    ensures var mask := SelectServiceMask(ModelDriver.POLICY_FIXED, Authority, hasNetConnection, m, networkLod, enableFixedSmoothing);
      HasFlag(mask, FixedTick) && HasFlag(mask, FixedPhysics) && HasFlag(mask, FixedFinalize) &&
      (m.hasInput ==> HasFlag(mask, FixedInputRemote) == hasNetConnection && HasFlag(mask, FixedInputLocal) == !hasNetConnection) &&
      !HasFlag(mask, FixedRollback) && !HasFlag(mask, FixedPhysicsRollback) && !HasFlag(mask, FixedInterpolate)
  {
    FixedAuthorityList(hasNetConnection, m, networkLod, enableFixedSmoothing);
    SelectedFlags(ModelDriver.POLICY_FIXED, Authority, hasNetConnection, m, networkLod, enableFixedSmoothing, FixedRollback);
    SelectedFlags(ModelDriver.POLICY_FIXED, Authority, hasNetConnection, m, networkLod, enableFixedSmoothing, FixedPhysicsRollback);
    SelectedFlags(ModelDriver.POLICY_FIXED, Authority, hasNetConnection, m, networkLod, enableFixedSmoothing, FixedInterpolate);
    SelectedFlags(ModelDriver.POLICY_FIXED, Authority, hasNetConnection, m, networkLod, enableFixedSmoothing, FixedTick);
    SelectedFlags(ModelDriver.POLICY_FIXED, Authority, hasNetConnection, m, networkLod, enableFixedSmoothing, FixedPhysics);
    SelectedFlags(ModelDriver.POLICY_FIXED, Authority, hasNetConnection, m, networkLod, enableFixedSmoothing, FixedFinalize);
    SelectedFlags(ModelDriver.POLICY_FIXED, Authority, hasNetConnection, m, networkLod, enableFixedSmoothing, FixedInputRemote);
    SelectedFlags(ModelDriver.POLICY_FIXED, Authority, hasNetConnection, m, networkLod, enableFixedSmoothing, FixedInputLocal);
  }

  lemma FixedAuthorityList(hasNetConnection: bool, m: ModelDriver.ModelDef, networkLod: nat, enableFixedSmoothing: bool)
    requires m.hasSimulation
    ensures var ss := SelectedServices(ModelDriver.POLICY_FIXED, Authority, hasNetConnection, m, networkLod, enableFixedSmoothing);
      FixedTick in ss && FixedPhysics in ss && FixedFinalize in ss &&
      (m.hasInput ==> (FixedInputRemote in ss) == hasNetConnection && (FixedInputLocal in ss) == !hasNetConnection) &&
      FixedRollback !in ss && FixedPhysicsRollback !in ss && FixedInterpolate !in ss
  {
    var role := FixedRoleServices(Authority, hasNetConnection, m);
    var tick := FixedTickServices(Authority, m, networkLod, enableFixedSmoothing);
    assert tick == [FixedTick, FixedPhysics, FixedFinalize] + SmoothingServices(m, enableFixedSmoothing);
    assert role == if m.hasInput then [if hasNetConnection then FixedInputRemote else FixedInputLocal] else [];
    assert SelectedServices(ModelDriver.POLICY_FIXED, Authority, hasNetConnection, m, networkLod, enableFixedSmoothing) == role + tick;
  }

  /** A fixed-tick authority without a simulation subscribes to nothing. */
  lemma FixedAuthorityWithoutSimulation(hasNetConnection: bool, m: ModelDriver.ModelDef, networkLod: nat, enableFixedSmoothing: bool)
    requires !m.hasSimulation
    ensures SelectServiceMask(ModelDriver.POLICY_FIXED, Authority, hasNetConnection, m, networkLod, enableFixedSmoothing) == 0
  {
    assert SelectedServices(ModelDriver.POLICY_FIXED, Authority, hasNetConnection, m, networkLod, enableFixedSmoothing) == [];
  }

  /**
   * A fixed-tick simulated proxy at the Interpolated LOD subscribes to
   * FixedInterpolate alone; an autonomous proxy at that LOD adds it to its
   * input and server-RPC services and to nothing else.
   */
  lemma FixedInterpolatedProxyServices(hasNetConnection: bool, m: ModelDriver.ModelDef, enableFixedSmoothing: bool, s: Service)
    ensures HasFlag(SelectServiceMask(ModelDriver.POLICY_FIXED, SimulatedProxy, hasNetConnection, m, ModelDriver.LOD_INTERPOLATED, enableFixedSmoothing), s)
      <==> s == FixedInterpolate
    ensures HasFlag(SelectServiceMask(ModelDriver.POLICY_FIXED, AutonomousProxy, hasNetConnection, m, ModelDriver.LOD_INTERPOLATED, enableFixedSmoothing), s)
      <==> s == FixedInputLocal || s == FixedServerRPC || s == FixedInterpolate
  {
    FixedInterpolatedLists(hasNetConnection, m, enableFixedSmoothing);
    SelectedFlags(ModelDriver.POLICY_FIXED, SimulatedProxy, hasNetConnection, m, ModelDriver.LOD_INTERPOLATED, enableFixedSmoothing, s);
    SelectedFlags(ModelDriver.POLICY_FIXED, AutonomousProxy, hasNetConnection, m, ModelDriver.LOD_INTERPOLATED, enableFixedSmoothing, s);
  }

  lemma FixedInterpolatedLists(hasNetConnection: bool, m: ModelDriver.ModelDef, enableFixedSmoothing: bool)
    ensures SelectedServices(ModelDriver.POLICY_FIXED, SimulatedProxy, hasNetConnection, m, ModelDriver.LOD_INTERPOLATED, enableFixedSmoothing)
      == [FixedInterpolate]
    ensures SelectedServices(ModelDriver.POLICY_FIXED, AutonomousProxy, hasNetConnection, m, ModelDriver.LOD_INTERPOLATED, enableFixedSmoothing)
      == [FixedInputLocal, FixedServerRPC, FixedInterpolate]
  {
  }

  /** An independent-tick simulated proxy only interpolates. */
  lemma IndependentSimulatedProxyServices(hasNetConnection: bool, m: ModelDriver.ModelDef, networkLod: nat, enableFixedSmoothing: bool, s: Service)
    ensures HasFlag(SelectServiceMask(ModelDriver.POLICY_INDEPENDENT, SimulatedProxy, hasNetConnection, m, networkLod, enableFixedSmoothing), s)
      <==> s == IndependentInterpolate
  {
  }

  /**
   * A fixed-tick simulated proxy configured for SimExtrapolate subscribes to
   * no service at all: the LOD switch has no branch for it.
   */
  lemma FixedSimExtrapolateProxyIdle(hasNetConnection: bool, m: ModelDriver.ModelDef, enableFixedSmoothing: bool)
    ensures SelectServiceMask(ModelDriver.POLICY_FIXED, SimulatedProxy, hasNetConnection, m, ModelDriver.LOD_SIM_EXTRAPOLATE, enableFixedSmoothing) == 0
  {
  }

  /** Fixed smoothing is only ever selected for a simulation that finalizes a smoothing frame, with the setting on. */
  lemma SmoothingNeedsSettingAndModel(tickingMode: nat, role: NetRole, hasNetConnection: bool, m: ModelDriver.ModelDef, networkLod: nat, enableFixedSmoothing: bool)
    ensures HasFlag(SelectServiceMask(tickingMode, role, hasNetConnection, m, networkLod, enableFixedSmoothing), FixedSmoothing)
      ==> enableFixedSmoothing && m.hasFinalizeSmoothingFrame && m.hasSimulation
  {
    SelectedFlags(tickingMode, role, hasNetConnection, m, networkLod, enableFixedSmoothing, FixedSmoothing);
    SmoothingOnlyFromTick(tickingMode, role, hasNetConnection, m, networkLod, enableFixedSmoothing);
  }

  lemma SmoothingOnlyFromTick(tickingMode: nat, role: NetRole, hasNetConnection: bool, m: ModelDriver.ModelDef, networkLod: nat, enableFixedSmoothing: bool)
    ensures FixedSmoothing in SelectedServices(tickingMode, role, hasNetConnection, m, networkLod, enableFixedSmoothing)
      ==> enableFixedSmoothing && m.hasFinalizeSmoothingFrame && m.hasSimulation
  {
    assert FixedSmoothing !in IndependentServices(role, hasNetConnection, m);
    assert FixedSmoothing !in FixedRoleServices(role, hasNetConnection, m);
  }

  /**
   * Because the selected mask never mixes groups, the registry's
   * ForEachService visits exactly the selected services it implements.
   */
  lemma SelectedMaskFullyVisited(tickingMode: nat, role: NetRole, hasNetConnection: bool, m: ModelDriver.ModelDef, networkLod: nat, enableFixedSmoothing: bool, s: Service)
    ensures var mask := SelectServiceMask(tickingMode, role, hasNetConnection, m, networkLod, enableFixedSmoothing);
      ServiceRegistry.Visits(mask, s) <==> ServiceRegistry.Subscribed(mask, s)
  {
    var mask := SelectServiceMask(tickingMode, role, hasNetConnection, m, networkLod, enableFixedSmoothing);
    ServiceRegistry.VisitsOneGroup(mask, s);
  }

  // ---------------------------------------------------------------------
  // Cue receive target
  // ---------------------------------------------------------------------

  /**
   * The replication target a non-authority's cue dispatcher accepts
   * (None: the authority's dispatcher is left as it is). The test is
   * EnumHasAnyFlags(mask, FixedInterpolate | IndependentInterpolate).
   */
  function CueReceiveTarget(role: NetRole, mask: nat): (t: Option<nat>)
    requires ValidMask(mask)
    ensures role.Authority? <==> t.None?
    ensures !role.Authority? && (HasFlag(mask, FixedInterpolate) || HasFlag(mask, IndependentInterpolate)) ==>
      t == Some(CueTraits.TARGET_INTERPOLATORS)
    ensures !role.Authority? && !HasFlag(mask, FixedInterpolate) && !HasFlag(mask, IndependentInterpolate) ==>
      t == Some(if role.AutonomousProxy? then CueTraits.TARGET_AUTO_PROXY else CueTraits.TARGET_SIMULATED_PROXY)
  {
    var interpolators := BitOr(Flag(FixedInterpolate), Flag(IndependentInterpolate));
    var any := BitAnd(mask, interpolators) != 0;
    assert any <==> HasFlag(mask, FixedInterpolate) || HasFlag(mask, IndependentInterpolate) by {
      InterpolateTest(mask);
    }
    if role.Authority? then None
    else if any then Some(CueTraits.TARGET_INTERPOLATORS)
    else Some(if role.AutonomousProxy? then CueTraits.TARGET_AUTO_PROXY else CueTraits.TARGET_SIMULATED_PROXY)
  }

  /** The two-flag EnumHasAnyFlags test is the disjunction of the two single-flag tests. */
  lemma InterpolateTest(mask: nat)
    ensures BitAnd(mask, BitOr(Flag(FixedInterpolate), Flag(IndependentInterpolate))) != 0
      <==> HasFlag(mask, FixedInterpolate) || HasFlag(mask, IndependentInterpolate)
  {
    var both := BitOr(Flag(FixedInterpolate), Flag(IndependentInterpolate));
    var r := BitAnd(mask, both);
    forall i: nat
      ensures Bit(r, i) <==> Bit(mask, i) && (i == Index(FixedInterpolate) || i == Index(IndependentInterpolate))
    {
      BitAndBit(mask, both, i);
      BitOrBit(Flag(FixedInterpolate), Flag(IndependentInterpolate), i);
      FlagIsOwnBit(FixedInterpolate, FixedInterpolate, i);
      FlagIsOwnBit(IndependentInterpolate, IndependentInterpolate, i);
    }
    if r == 0 {
      ZeroHasNoBits(Index(FixedInterpolate));
      ZeroHasNoBits(Index(IndependentInterpolate));
    } else if !HasFlag(mask, FixedInterpolate) && !HasFlag(mask, IndependentInterpolate) {
      forall i: nat
        ensures Bit(r, i) == Bit(0, i)
      {
        ZeroHasNoBits(i);
      }
      BitsDetermineValue(r, 0);
    }
  }

  /** A fixed-tick proxy at the Interpolated LOD accepts Interpolators cues. */
  lemma InterpolatedProxyCueTarget(hasNetConnection: bool, m: ModelDriver.ModelDef, enableFixedSmoothing: bool, role: NetRole)
    requires role.AutonomousProxy? || role.SimulatedProxy?
    ensures CueReceiveTarget(role, SelectServiceMask(ModelDriver.POLICY_FIXED, role, hasNetConnection, m, ModelDriver.LOD_INTERPOLATED, enableFixedSmoothing))
      == Some(CueTraits.TARGET_INTERPOLATORS)
  {
    FixedInterpolatedProxyServices(hasNetConnection, m, enableFixedSmoothing, FixedInterpolate);
  }

  /** A forward-predicted fixed-tick proxy accepts the cues meant for its role. */
  lemma PredictedProxyCueTarget(hasNetConnection: bool, m: ModelDriver.ModelDef, enableFixedSmoothing: bool, role: NetRole)
    requires role.AutonomousProxy? || role.SimulatedProxy?
    ensures CueReceiveTarget(role, SelectServiceMask(ModelDriver.POLICY_FIXED, role, hasNetConnection, m, ModelDriver.LOD_FORWARD_PREDICT, enableFixedSmoothing))
      == Some(if role.AutonomousProxy? then CueTraits.TARGET_AUTO_PROXY else CueTraits.TARGET_SIMULATED_PROXY)
  {
    var ss := SelectedServices(ModelDriver.POLICY_FIXED, role, hasNetConnection, m, ModelDriver.LOD_FORWARD_PREDICT, enableFixedSmoothing);
    assert FixedInterpolate !in ss && IndependentInterpolate !in ss by {
      FixedSelectionIsFixed(role, hasNetConnection, m, ModelDriver.LOD_FORWARD_PREDICT, enableFixedSmoothing);
      assert ss == FixedRoleServices(role, hasNetConnection, m) + FixedTickServices(role, m, ModelDriver.LOD_FORWARD_PREDICT, enableFixedSmoothing);
    }
    SelectedFlags(ModelDriver.POLICY_FIXED, role, hasNetConnection, m, ModelDriver.LOD_FORWARD_PREDICT, enableFixedSmoothing, FixedInterpolate);
    SelectedFlags(ModelDriver.POLICY_FIXED, role, hasNetConnection, m, ModelDriver.LOD_FORWARD_PREDICT, enableFixedSmoothing, IndependentInterpolate);
  }

  /** An independent-tick simulated proxy accepts Interpolators cues. */
  lemma IndependentProxyCueTarget(hasNetConnection: bool, m: ModelDriver.ModelDef, networkLod: nat, enableFixedSmoothing: bool)
    ensures CueReceiveTarget(SimulatedProxy, SelectServiceMask(ModelDriver.POLICY_INDEPENDENT, SimulatedProxy, hasNetConnection, m, networkLod, enableFixedSmoothing))
      == Some(CueTraits.TARGET_INTERPOLATORS)
  {
    IndependentSimulatedProxyServices(hasNetConnection, m, networkLod, enableFixedSmoothing, IndependentInterpolate);
  }

  // ---------------------------------------------------------------------
  // Cached view and the pending-frame carry-over
  // ---------------------------------------------------------------------

  /**
   * Where an instance's cached view points: its PendingFrame (a server
   * frame, for game code) and the frame-buffer frame whose input, sync and
   * aux states the view's pointers address (a local frame).
   */
  datatype ViewFrames = ViewFrames(viewFrame: int, bufferFrame: int)

  /**
   * The view ConfigureInstance sets up. In independent mode both frames are
   * the variable tick's pending frame, or the remote client's pending frame
   * on a server ticking it; in fixed mode the view frame is the pending
   * server frame while the buffer frame is the pending local frame; any
   * other ticking mode leaves the view alone.
   */
  function ConfiguredView(tickingMode: nat, role: NetRole, hasNetConnection: bool, fixed: TickState.FixedTickState,
                          variablePending: int, serverRecvPending: int, prev: ViewFrames): (v: ViewFrames)
    ensures tickingMode == ModelDriver.POLICY_FIXED ==>
      v.viewFrame + 1 == TickState.GetNextTimeStep(fixed).frame &&
      v.bufferFrame == TickState.GetNextServiceTimeStep(fixed).localInputFrame
    ensures tickingMode == ModelDriver.POLICY_INDEPENDENT ==> v.viewFrame == v.bufferFrame
    ensures tickingMode == ModelDriver.POLICY_INDEPENDENT && role.Authority? && hasNetConnection ==> v.bufferFrame == serverRecvPending
    ensures tickingMode == ModelDriver.POLICY_INDEPENDENT && !(role.Authority? && hasNetConnection) ==> v.bufferFrame == variablePending
    ensures tickingMode != ModelDriver.POLICY_FIXED && tickingMode != ModelDriver.POLICY_INDEPENDENT ==> v == prev
  {
    if tickingMode == ModelDriver.POLICY_INDEPENDENT then
      var f := if role.Authority? && hasNetConnection then serverRecvPending else variablePending;
      ViewFrames(f, f)
    else if tickingMode == ModelDriver.POLICY_FIXED then
      ViewFrames(fixed.pendingFrame + fixed.offset, fixed.pendingFrame)
    else prev
  }

  /**
   * The carry-over keyed by server frame: a configured instance whose view frame
   * changed copies the buffer entry at the previous view frame into the
   * entry at the new view frame, using the view's server frames as buffer
   * frames. A new instance is seeded through the driver instead, which is
   * not part of this model, so its buffer is returned unchanged.
   */
  function CarryOverAsWritten<F>(b: FrameBuffer.Buffer<F>, newInstance: bool, hasNpState: bool, prevViewFrame: nat, v: ViewFrames): (r: FrameBuffer.Buffer<F>)
    requires FrameBuffer.Valid(b) && v.viewFrame >= 0
    ensures FrameBuffer.Valid(r) && FrameBuffer.Capacity(r) == FrameBuffer.Capacity(b)
    ensures !newInstance && hasNpState && prevViewFrame != v.viewFrame ==> FrameBuffer.At(r, v.viewFrame) == FrameBuffer.At(b, prevViewFrame)
    ensures newInstance || !hasNpState || prevViewFrame == v.viewFrame ==> r == b
  {
    if !newInstance && prevViewFrame != v.viewFrame && hasNpState then
      FrameBuffer.Put(b, v.viewFrame, FrameBuffer.At(b, prevViewFrame))
    else b
  }

  /**
   * The carry-over the view's contract calls for: a configured instance
   * whose pending buffer frame moved gets the previous pending entry copied
   * into the entry its view now reads, and no other entry changes.
   */
  function CarryOver<F>(b: FrameBuffer.Buffer<F>, newInstance: bool, hasNpState: bool, prev: ViewFrames, v: ViewFrames): (r: FrameBuffer.Buffer<F>)
    requires FrameBuffer.Valid(b) && prev.bufferFrame >= 0 && v.bufferFrame >= 0
    ensures FrameBuffer.Valid(r) && FrameBuffer.Capacity(r) == FrameBuffer.Capacity(b)
    ensures !newInstance && hasNpState ==> FrameBuffer.At(r, v.bufferFrame) == FrameBuffer.At(b, prev.bufferFrame)
    ensures forall g: nat :: FrameBuffer.Slot(b, g) != FrameBuffer.Slot(b, v.bufferFrame) ==> FrameBuffer.At(r, g) == FrameBuffer.At(b, g)
    ensures newInstance || !hasNpState ==> r == b
  {
    if !newInstance && prev.bufferFrame != v.bufferFrame && hasNpState then
      FrameBuffer.Put(b, v.bufferFrame, FrameBuffer.At(b, prev.bufferFrame))
    else b
  }

  /** In independent mode view and buffer frames coincide, so the two carry-overs agree. */
  lemma IndependentCarryOverAgrees<F>(b: FrameBuffer.Buffer<F>, newInstance: bool, hasNpState: bool, prev: ViewFrames, v: ViewFrames)
    requires FrameBuffer.Valid(b) && prev.viewFrame == prev.bufferFrame >= 0 && v.viewFrame == v.bufferFrame >= 0
    ensures CarryOverAsWritten(b, newInstance, hasNpState, prev.viewFrame, v) == CarryOver(b, newInstance, hasNpState, prev, v)
  {
  }

  /**
   * With a non-zero fixed offset the carry-over keyed by server frame misses the
   * view: pending local frame 10 at offset 5 (view frame 15) after pending
   * local frame 7 (view frame 12). The entry the view reads, local frame
   * 10, still holds its own contents instead of the previous pending
   * state, while entry 15 is overwritten with entry 12.
   */
  lemma CarryOverAsWrittenMissesView()
    ensures var b := FrameBuffer.Buffer(seq(64, (i: int) => i));
      var fixed := TickState.FixedTickState(33, 10, INDEX_NONE, 5, 5, 0.0);
      var prev := ViewFrames(12, 7);
      var v := ConfiguredView(ModelDriver.POLICY_FIXED, AutonomousProxy, false, fixed, 0, 0, prev);
      var r := CarryOverAsWritten(b, false, true, prev.viewFrame, v);
      v == ViewFrames(15, 10) &&
      FrameBuffer.At(r, v.bufferFrame) == 10 && FrameBuffer.At(b, prev.bufferFrame) == 7 &&
      FrameBuffer.At(r, 15) == 12
  {
    var b := FrameBuffer.Buffer(seq(64, (i: int) => i));
    assert FrameBuffer.At(b, 12) == 12;
    assert FrameBuffer.At(b, 7) == 7;
    var r := FrameBuffer.Put(b, 15, 12);
    assert FrameBuffer.Slot(b, 10) == 10 && FrameBuffer.Slot(b, 15) == 15;
    assert FrameBuffer.At(r, 10) == FrameBuffer.At(b, 10) == 10;
  }
}
