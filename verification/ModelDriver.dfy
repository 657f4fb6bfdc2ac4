/**
 * The compile-time description of a model definition as the default driver
 * sees it: which state types exist, what network LODs and ticking policies
 * it supports, the default archetype and per-role config derived from
 * those, and the sync/aux reconcile test. Ticking policies and LODs are
 * the enums' flag values, so a set of them is a small mask.
 */
module ModelDriver {
  import opened Common
  import opened Bits
  import ServiceFlags

  // ---------------------------------------------------------------------
  // Enums
  // ---------------------------------------------------------------------

  const POLICY_INDEPENDENT: nat := 1
  const POLICY_FIXED: nat := 2
  const POLICY_ALL: nat := 3

  const LOD_INTERPOLATED: nat := 1
  const LOD_SIM_EXTRAPOLATE: nat := 2
  const LOD_FORWARD_PREDICT: nat := 4
  const LOD_ALL: nat := 7

  /** One of the three LODs. */
  predicate IsLod(l: nat)
  {
    l == LOD_INTERPOLATED || l == LOD_SIM_EXTRAPOLATE || l == LOD_FORWARD_PREDICT
  }

  /** A non-empty set of LODs. */
  predicate IsLodMask(m: nat)
  {
    1 <= m <= LOD_ALL
  }

  datatype InputPolicy = Passive | PollPerSimFrame

  /** GetHighestNetworkLOD: compares the mask's numeric value against the flags. */
  function HighestNetworkLod(mask: nat): (l: nat)
    ensures IsLod(l)
  {
    if mask >= LOD_FORWARD_PREDICT then LOD_FORWARD_PREDICT
    else if mask >= LOD_SIM_EXTRAPOLATE then LOD_SIM_EXTRAPOLATE
    else LOD_INTERPOLATED
  }

  /**
   * On a non-empty LOD mask the numeric comparison picks the highest LOD
   * in the mask: it is in the mask and no higher LOD is.
   */
  lemma HighestLodIsHighestMember(mask: nat)
    requires IsLodMask(mask)
    ensures BitAnd(mask, HighestNetworkLod(mask)) != 0
    ensures forall l: nat :: IsLod(l) && l > HighestNetworkLod(mask) ==> BitAnd(mask, l) == 0
  {
    if mask == 1 {
    } else if mask == 2 {
    } else if mask == 3 {
    } else if mask == 4 {
    } else if mask == 5 {
    } else if mask == 6 {
    } else {
    }
  }

  // ---------------------------------------------------------------------
  // Model definitions and capabilities
  // ---------------------------------------------------------------------

  /** Which of the model definition's types are non-void. */
  datatype ModelDef = ModelDef(
    hasDriver: bool,
    hasSimulation: bool,
    hasInput: bool,
    hasSync: bool,
    hasAux: bool,
    hasFinalizeSmoothingFrame: bool)

  /** HasNpState: any of the input, sync or aux state types exists. */
  predicate HasNpState(m: ModelDef)
  {
    m.hasInput || m.hasSync || m.hasAux
  }

  datatype SupportedLods = SupportedLods(ap: nat, sp: nat)

  datatype Capabilities = Capabilities(fixedLods: SupportedLods, independentLods: SupportedLods, supportedTickingPolicies: nat)

  /** The member initialisers of FJoltNetworkPredictionModelDefCapabilities. */
  const DEFAULT_CAPABILITIES: Capabilities :=
    Capabilities(SupportedLods(LOD_ALL, LOD_ALL), SupportedLods(LOD_ALL, LOD_INTERPOLATED + LOD_SIM_EXTRAPOLATE), POLICY_ALL)

  /** GetCapabilities: a model with nothing to tick can only interpolate. */
  function GetCapabilities(m: ModelDef): (c: Capabilities)
    ensures c.supportedTickingPolicies == POLICY_ALL
    ensures !m.hasSimulation ==> c.fixedLods == SupportedLods(LOD_INTERPOLATED, LOD_INTERPOLATED)
    ensures !m.hasSimulation ==> c.independentLods == SupportedLods(LOD_INTERPOLATED, LOD_INTERPOLATED)
    ensures m.hasSimulation ==> c == DEFAULT_CAPABILITIES
  {
    if !m.hasSimulation then
      DEFAULT_CAPABILITIES.(
        fixedLods := SupportedLods(LOD_INTERPOLATED, LOD_INTERPOLATED),
        independentLods := SupportedLods(LOD_INTERPOLATED, LOD_INTERPOLATED))
    else DEFAULT_CAPABILITIES
  }

  /** Every LOD set the default capabilities declare is a non-empty LOD mask. */
  predicate ValidCapabilities(c: Capabilities)
  {
    IsLodMask(c.fixedLods.ap) && IsLodMask(c.fixedLods.sp) &&
    IsLodMask(c.independentLods.ap) && IsLodMask(c.independentLods.sp) &&
    1 <= c.supportedTickingPolicies <= POLICY_ALL
  }

  lemma GetCapabilitiesValid(m: ModelDef)
    ensures ValidCapabilities(GetCapabilities(m))
  {
  }

  // ---------------------------------------------------------------------
  // Archetype and config
  // ---------------------------------------------------------------------

  /** GetDefaultArchetype: the preferred policy if supported, else the supported one(s). */
  function GetDefaultArchetype(c: Capabilities, preferred: nat): (tickingMode: nat)
    ensures BitAnd(c.supportedTickingPolicies, preferred) != 0 ==> tickingMode == preferred
    ensures BitAnd(c.supportedTickingPolicies, preferred) == 0 ==> tickingMode == c.supportedTickingPolicies
  {
    if BitAnd(c.supportedTickingPolicies, preferred) != 0 then preferred else c.supportedTickingPolicies
  }

  /** With the capabilities the default driver reports, either single policy is always honoured. */
  lemma DefaultArchetypeIsPreferred(m: ModelDef, preferred: nat)
    requires preferred == POLICY_FIXED || preferred == POLICY_INDEPENDENT
    ensures GetDefaultArchetype(GetCapabilities(m), preferred) == preferred
  {
  }

  /** A model that supports only one policy falls back to it when the other is preferred. */
  lemma ArchetypeFallsBackToSupported(c: Capabilities)
    requires c.supportedTickingPolicies == POLICY_INDEPENDENT
    ensures GetDefaultArchetype(c, POLICY_FIXED) == POLICY_INDEPENDENT
  {
  }

  datatype InstanceConfig = InstanceConfig(inputPolicy: InputPolicy, networkLod: nat)

  /** The member initialisers of FJoltNetworkPredictionInstanceConfig. */
  const DEFAULT_CONFIG: InstanceConfig := InstanceConfig(Passive, LOD_FORWARD_PREDICT)

  /** The LOD set a role may pick from, for the archetype's ticking mode. */
  function CapableLods(c: Capabilities, tickingMode: nat, autonomous: bool): (m: nat)
  {
    var lods := if tickingMode == POLICY_FIXED then c.fixedLods else c.independentLods;
    if autonomous then lods.ap else lods.sp
  }

  /**
   * GetConfig: the authority polls its own input only without a net
   * connection; the autonomous proxy polls and uses its highest capable
   * LOD; a simulated proxy is passive and uses the project's preferred LOD
   * when capable of it, else its highest capable one.
   */
  function GetConfig(c: Capabilities, tickingMode: nat, preferredSpLod: nat, role: ServiceFlags.NetRole, hasNetConnection: bool): (r: InstanceConfig)
    ensures role.Authority? ==> r == DEFAULT_CONFIG.(inputPolicy := if hasNetConnection then Passive else PollPerSimFrame)
    ensures role.AutonomousProxy? ==> r == InstanceConfig(PollPerSimFrame, HighestNetworkLod(CapableLods(c, tickingMode, true)))
    ensures role.SimulatedProxy? ==> r.inputPolicy == Passive
    ensures role.SimulatedProxy? && BitAnd(CapableLods(c, tickingMode, false), preferredSpLod) != 0 ==> r.networkLod == preferredSpLod
    ensures role.SimulatedProxy? && BitAnd(CapableLods(c, tickingMode, false), preferredSpLod) == 0 ==>
      r.networkLod == HighestNetworkLod(CapableLods(c, tickingMode, false))
    ensures role.RoleNone? ==> r == DEFAULT_CONFIG
  {
    match role
    case Authority => DEFAULT_CONFIG.(inputPolicy := if hasNetConnection then Passive else PollPerSimFrame)
    case AutonomousProxy => InstanceConfig(PollPerSimFrame, HighestNetworkLod(CapableLods(c, tickingMode, true)))
    case SimulatedProxy =>
      var capable := CapableLods(c, tickingMode, false);
      InstanceConfig(Passive, if BitAnd(capable, preferredSpLod) != 0 then preferredSpLod else HighestNetworkLod(capable))
    case RoleNone => DEFAULT_CONFIG
  }

  /**
   * A proxy's config never names an LOD its model cannot run: with valid
   * capabilities and a single preferred LOD, the chosen LOD is in the
   * role's capable set.
   */
  lemma ProxyLodIsCapable(c: Capabilities, tickingMode: nat, preferredSpLod: nat, role: ServiceFlags.NetRole, hasNetConnection: bool)
    requires ValidCapabilities(c) && IsLod(preferredSpLod)
    requires role.AutonomousProxy? || role.SimulatedProxy?
    ensures var r := GetConfig(c, tickingMode, preferredSpLod, role, hasNetConnection);
      BitAnd(CapableLods(c, tickingMode, role.AutonomousProxy?), r.networkLod) != 0
  {
    HighestLodIsHighestMember(CapableLods(c, tickingMode, role.AutonomousProxy?));
    var m := CapableLods(c, tickingMode, role.AutonomousProxy?);
    BitAndSymmetric(m, HighestNetworkLod(m));
    BitAndSymmetric(m, preferredSpLod);
  }

  /** A model without a simulation is interpolated on every proxy, whatever the project prefers. */
  lemma NoSimulationInterpolates(m: ModelDef, tickingMode: nat, preferredSpLod: nat, role: ServiceFlags.NetRole, hasNetConnection: bool)
    requires !m.hasSimulation && IsLod(preferredSpLod)
    requires role.AutonomousProxy? || role.SimulatedProxy?
    ensures GetConfig(GetCapabilities(m), tickingMode, preferredSpLod, role, hasNetConnection).networkLod == LOD_INTERPOLATED
  {
  }

  lemma BitAndSymmetric(x: nat, y: nat)
    ensures BitAnd(x, y) == BitAnd(y, x)
  {
    forall i: nat
      ensures Bit(BitAnd(x, y), i) == Bit(BitAnd(y, x), i)
    {
      BitAndBit(x, y, i);
      BitAndBit(y, x, i);
    }
    BitsDetermineValue(BitAnd(x, y), BitAnd(y, x));
  }

  // ---------------------------------------------------------------------
  // ShouldReconcile
  // ---------------------------------------------------------------------

  /**
   * The pair test: reconcile when the sync state or the aux state asks to.
   * A void state type never asks, so it is passed as None.
   */
  function ShouldReconcilePair(syncVerdict: Option<bool>, auxVerdict: Option<bool>): (r: bool)
    ensures r <==> (syncVerdict == Some(true) || auxVerdict == Some(true))
  {
    (syncVerdict.Some? && syncVerdict.value) || (auxVerdict.Some? && auxVerdict.value)
  }

  /** A model whose sync and aux types are both void never reconciles. */
  lemma VoidStatesNeverReconcile()
    ensures !ShouldReconcilePair(None, None)
  {
  }
}
