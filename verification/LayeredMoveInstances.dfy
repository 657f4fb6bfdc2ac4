/**
 * The move-instance layered moves: a stateless logic object (mix mode,
 * priority, finish settings, the type of data it instantiates) paired with
 * per-activation instanced data (start time and duration), and the group
 * that queues, activates, cancels and finishes them. The logic's
 * callbacks (OnStart, GenerateMove, OnEnd) are parameters or left out.
 */
module LayeredMoveInstances {
  import opened Common
  import opened Conversions
  import opened MoverTypes
  import opened ResidualVelocity
  import MoverDataCollection
  import MovementMixer
  import LG = LayeredMoveGroup

  type StructType = MoverDataCollection.StructType
  type CancelRequest = LG.CancelRequest

  /** FJoltLayeredMoveInstancedData's name. */
  const INSTANCED_DATA_BASE: string := "JoltLayeredMoveInstancedData"

  const BASE_DATA_TYPE: StructType := MoverDataCollection.StructType(INSTANCED_DATA_BASE, [])

  /** FJoltLayeredMoveInstancedData: its script struct and the two fields the base declares. */
  datatype InstancedData = InstancedData(struct: StructType, startSimTimeMs: real, durationMs: real)

  /** Freshly initialised data of type `t`: not started, no duration. */
  function NewData(t: StructType): (d: InstancedData)
    ensures d.struct == t && d.startSimTimeMs < 0.0 && d.durationMs < 0.0
  {
    InstancedData(t, LG.INVALID_TIME, -1.0)
  }

  /** Instanced-data operator==: the same script struct, then Equals, which compares start time and duration. */
  function DataEqual(a: InstancedData, b: InstancedData): (r: bool)
    ensures r <==> a == b
  {
    a.struct == b.struct && a.startSimTimeMs == b.startSimTimeMs && a.durationMs == b.durationMs
  }

  /** UJoltLayeredMoveLogic: identified by its class. */
  datatype Logic = Logic(logicClass: string, mixMode: MixMode, priority: Byte, finish: FinishVelocitySettings, dataType: StructType)

  /**
   * FJoltLayeredMoveInstance: the data, the logic (null after the instance
   * arrived over the network) and the logic class that arrived with it.
   */
  datatype Instance = Instance(data: InstancedData, logic: Option<Logic>, serializedClass: Option<string>)

  /**
   * UJoltLayeredMoveLogic::IsFinished_Implementation: a negative duration
   * never finishes; otherwise the move must have started and its duration
   * have elapsed by the step's base time.
   */
  function LogicIsFinished(d: InstancedData, step: TimeStep): (r: bool)
    ensures d.durationMs < 0.0 ==> !r
    ensures r ==> d.startSimTimeMs >= 0.0 && d.startSimTimeMs <= step.baseSimTimeMs
  {
    if d.durationMs < 0.0 then false
    else d.startSimTimeMs >= 0.0 && d.startSimTimeMs + d.durationMs <= step.baseSimTimeMs
  }

  /**
   * Once now has reached the start time, the instance rule agrees with the
   * older layered move's IsFinished on the same start time and duration;
   * before that, a zero-duration move counts as finished only for the
   * older rule.
   */
  lemma FinishRulesAgreeOnceStarted(d: InstancedData, step: TimeStep, m: LG.LayeredMove)
    requires m.startSimTimeMs == d.startSimTimeMs && m.durationMs == d.durationMs
    ensures d.startSimTimeMs <= step.baseSimTimeMs ==> (LogicIsFinished(d, step) <==> LG.IsFinished(m, step.baseSimTimeMs))
    ensures d.startSimTimeMs > step.baseSimTimeMs ==> (!LogicIsFinished(d, step) && (LG.IsFinished(m, step.baseSimTimeMs) <==> d.startSimTimeMs >= 0.0 && d.durationMs == 0.0))
  {
  }

  /** An instance without logic counts as finished; one with logic asks the logic. */
  function IsFinished(inst: Instance, step: TimeStep): (r: bool)
    ensures inst.logic.None? ==> r
    ensures inst.logic.Some? && inst.data.durationMs < 0.0 ==> !r
  {
    inst.logic.None? || LogicIsFinished(inst.data, step)
  }

  /** Without logic, an instance reports the default finish settings and the additive mix mode. */
  function InstanceEnding(inst: Instance): (e: Ending)
    ensures inst.logic.None? ==> e == Ending(AdditiveVelocity, DEFAULT_FINISH)
    ensures inst.logic.Some? ==> e == Ending(inst.logic.value.mixMode, inst.logic.value.finish)
  {
    match inst.logic
    case None => Ending(AdditiveVelocity, DEFAULT_FINISH)
    case Some(l) => Ending(l.mixMode, l.finish)
  }

  /** StartMove: with logic, the data is stamped with the step's base time; without, nothing happens. */
  function StartMove(inst: Instance, step: TimeStep): (r: Instance)
    ensures inst.logic.Some? ==> r == inst.(data := inst.data.(startSimTimeMs := step.baseSimTimeMs))
    ensures inst.logic.None? ==> r == inst
  {
    if inst.logic.Some? then inst.(data := inst.data.(startSimTimeMs := step.baseSimTimeMs)) else inst
  }

  /**
   * GenerateMove: the logic proposes a move (`generate` is the logic's own
   * GenerateMove); on every tick after the first the proposed preferred
   * mode is wiped. Without logic nothing is generated.
   */
  function GenerateMove(inst: Instance, step: TimeStep, generate: (Logic, InstancedData, TimeStep) -> Option<ProposedMove>): (r: Option<ProposedMove>)
    ensures inst.logic.None? ==> r.None?
    ensures inst.logic.Some? ==> (r.Some? <==> generate(inst.logic.value, inst.data, step).Some?)
    ensures r.Some? ==> r.value == generate(inst.logic.value, inst.data, step).value.(preferredMode := r.value.preferredMode)
  {
    if inst.logic.None? then None
    else
      match generate(inst.logic.value, inst.data, step)
      case None => None
      case Some(p) => Some(if inst.data.startSimTimeMs < step.baseSimTimeMs then p.(preferredMode := NAME_NONE) else p)
  }

  /**
   * A preferred mode survives only the tick the move started on: at the
   * start step it is passed through, at any later step it is None.
   */
  lemma PreferredModeOnlyOnFirstTick(inst: Instance, start: TimeStep, later: TimeStep, generate: (Logic, InstancedData, TimeStep) -> Option<ProposedMove>)
    requires inst.logic.Some?
    requires start.baseSimTimeMs < later.baseSimTimeMs
    ensures var s := StartMove(inst, start);
      && GenerateMove(s, start, generate) == generate(s.logic.value, s.data, start)
      && (GenerateMove(s, later, generate).Some? ==> GenerateMove(s, later, generate).value.preferredMode == NAME_NONE)
  {
  }

  /** The first registered logic of class `cls`. */
  function FirstWithClass(registered: seq<Logic>, cls: string): (r: Option<Logic>)
    ensures r.Some? ==> exists i :: 0 <= i < |registered| && registered[i] == r.value && r.value.logicClass == cls
                          && forall j :: 0 <= j < i ==> registered[j].logicClass != cls
    ensures r.None? <==> forall i :: 0 <= i < |registered| ==> registered[i].logicClass != cls
  {
    if |registered| == 0 then None
    else if registered[0].logicClass == cls then Some(registered[0])
    else
      var r := FirstWithClass(registered[1..], cls);
      assert forall i :: 1 <= i < |registered| ==> registered[1..][i - 1] == registered[i];
      r
  }

  /**
   * PopulateMissingActiveMoveLogic: an instance with logic keeps it; one
   * without binds the first registered logic whose class is exactly the
   * one that arrived with it. The flag says whether the instance now has logic.
   */
  function PopulateLogic(inst: Instance, registered: seq<Logic>): (r: (bool, Instance))
    ensures r.0 <==> r.1.logic.Some?
    ensures inst.logic.Some? ==> r.1 == inst
    ensures inst.logic.None? && r.0 ==>
      (r.1 == inst.(logic := r.1.logic)
       && inst.serializedClass.Some? && r.1.logic == FirstWithClass(registered, inst.serializedClass.value))
    ensures inst.logic.None? && !r.0 ==>
      (r.1 == inst && (inst.serializedClass.None? || FirstWithClass(registered, inst.serializedClass.value).None?))
  {
    if inst.logic.Some? then (true, inst)
    else if inst.serializedClass.None? then (false, inst)
    else
      match FirstWithClass(registered, inst.serializedClass.value)
      case None => (false, inst)
      case Some(l) => (true, inst.(logic := Some(l)))
  }

  // ---------------------------------------------------------------------
  // The group (FJoltLayeredMoveInstanceGroup)
  // ---------------------------------------------------------------------

  datatype InstanceGroup = InstanceGroup(
    active: seq<Option<Instance>>,
    queued: seq<Option<Instance>>,
    residual: Residual,
    cancels: seq<CancelRequest>)

  const NEW_INSTANCE_GROUP: InstanceGroup := InstanceGroup([], [], NO_RESIDUAL, [])

  /** QueueLayeredMove: only a non-null instance with logic is queued. */
  function QueueLayeredMove(g: InstanceGroup, m: Option<Instance>): (r: InstanceGroup)
    ensures m.Some? && m.value.logic.Some? ==> r == g.(queued := g.queued + [m])
    ensures m.None? || m.value.logic.None? ==> r == g
  {
    if m.Some? && m.value.logic.Some? then g.(queued := g.queued + [m]) else g
  }

  /** Queueing keeps every queued instance non-null and with logic. */
  lemma QueueKeepsQueueRunnable(g: InstanceGroup, m: Option<Instance>)
    requires forall i :: 0 <= i < |g.queued| ==> g.queued[i].Some? && g.queued[i].value.logic.Some?
    ensures var r := QueueLayeredMove(g, m);
      forall i :: 0 <= i < |r.queued| ==> r.queued[i].Some? && r.queued[i].value.logic.Some?
  {
  }

  function CancelMovesByTag(g: InstanceGroup, tag: string, exact: bool): (r: InstanceGroup)
    ensures r.cancels == g.cancels + [LG.CancelRequest(tag, exact)]
    ensures r == g.(cancels := r.cancels)
  {
    g.(cancels := g.cancels + [LG.CancelRequest(tag, exact)])
  }

  /** The queued instances that become active, each started: the non-null ones with logic, in order. */
  function Activate(q: seq<Option<Instance>>, step: TimeStep): (r: seq<Option<Instance>>)
    ensures |r| <= |q|
    ensures forall i :: 0 <= i < |r| ==>
      (r[i].Some? && r[i].value.logic.Some? && r[i].value.data.startSimTimeMs == step.baseSimTimeMs)
    ensures forall i :: 0 <= i < |q| && q[i].Some? && q[i].value.logic.Some? ==> Some(StartMove(q[i].value, step)) in r
  {
    if |q| == 0 then []
    else
      var rest := Activate(q[1..], step);
      assert forall i :: 1 <= i < |q| ==> q[1..][i - 1] == q[i];
      if q[0].Some? && q[0].value.logic.Some? then [Some(StartMove(q[0].value, step))] + rest else rest
  }

  /** With only runnable instances queued, every one of them is activated, in order. */
  lemma {:induction false} ActivateKeepsRunnable(q: seq<Option<Instance>>, step: TimeStep)
    requires forall i :: 0 <= i < |q| ==> q[i].Some? && q[i].value.logic.Some?
    ensures |Activate(q, step)| == |q|
    ensures forall i :: 0 <= i < |q| ==> Activate(q, step)[i] == Some(StartMove(q[i].value, step))
  {
    if |q| > 0 {
      assert forall i :: 1 <= i < |q| ==> q[1..][i - 1] == q[i];
      ActivateKeepsRunnable(q[1..], step);
    }
  }

  /** A slot the finished pass keeps: a null one, or an instance that has not finished. */
  predicate StaysActive(step: TimeStep, o: Option<Instance>)
  {
    o.None? || !IsFinished(o.value, step)
  }

  /**
   * FlushMoveArrays: cancellations (matching or null queued slots dropped,
   * matching active instances ended), then finished instances ended (null
   * slots stay), then the runnable queued instances started and appended;
   * every ended instance goes through ProcessFinishedMove. `hasTag` is the
   * data's HasGameplayTag. Returns the new group and the ended instances.
   */
  function FlushMoveArrays(g: InstanceGroup, step: TimeStep, hasTag: (Instance, CancelRequest) -> bool): (r: (InstanceGroup, seq<Instance>))
    ensures r.0.queued == [] && r.0.cancels == []
    ensures r.0.residual == ProcessAll(Endings(r.1), (g.residual, NO_OVERRIDES)).0
  {
    var c := LG.CancelAll(g.active, g.queued, g.cancels, hasTag, true);
    var kept := Filter(c.0, o => StaysActive(step, o));
    var ended := c.2 + LG.Removed(c.0, m => IsFinished(m, step));
    (InstanceGroup(kept + Activate(c.1, step), [], ProcessAll(Endings(ended), (g.residual, NO_OVERRIDES)).0, []), ended)
  }

  /**
   * After a flush the active array holds, first, exactly the slots that
   * survived cancellation and have not finished (null slots included),
   * then the runnable queued instances, started.
   */
  lemma FlushActiveMeans(g: InstanceGroup, step: TimeStep, hasTag: (Instance, CancelRequest) -> bool)
    ensures var c := LG.CancelAll(g.active, g.queued, g.cancels, hasTag, true);
      var a := FlushMoveArrays(g, step, hasTag).0.active;
      var n := |a| - |Activate(c.1, step)|;
      && 0 <= n && a[n..] == Activate(c.1, step)
      && (forall i :: 0 <= i < n ==> StaysActive(step, a[i]) && a[i] in c.0)
      && (forall i :: 0 <= i < |c.0| && StaysActive(step, c.0[i]) ==> c.0[i] in a[..n])
  {
    var c := LG.CancelAll(g.active, g.queued, g.cancels, hasTag, true);
    var kept := Filter(c.0, o => StaysActive(step, o));
    var started := Activate(c.1, step);
    assert FlushMoveArrays(g, step, hasTag).0.active == kept + started;
    assert (kept + started)[|kept|..] == started;
    assert (kept + started)[..|kept|] == kept;
  }

  /**
   * The instances a flush ends: first those cancellation ended, then
   * exactly the non-null surviving instances that had finished.
   */
  lemma FlushEndedMeans(g: InstanceGroup, step: TimeStep, hasTag: (Instance, CancelRequest) -> bool)
    ensures var c := LG.CancelAll(g.active, g.queued, g.cancels, hasTag, true);
      var e := FlushMoveArrays(g, step, hasTag).1;
      && |c.2| <= |e| && e[..|c.2|] == c.2
      && (forall i :: |c.2| <= i < |e| ==> Some(e[i]) in c.0 && IsFinished(e[i], step))
      && (forall i :: 0 <= i < |c.0| && c.0[i].Some? && IsFinished(c.0[i].value, step) ==> c.0[i].value in e[|c.2|..])
  {
    var c := LG.CancelAll(g.active, g.queued, g.cancels, hasTag, true);
    var finished := LG.Removed(c.0, m => IsFinished(m, step));
    assert FlushMoveArrays(g, step, hasTag).1 == c.2 + finished;
    assert (c.2 + finished)[..|c.2|] == c.2;
    assert (c.2 + finished)[|c.2|..] == finished;
  }

  /** What ending instances hand to the residual velocity. */
  function Endings(ms: seq<Instance>): (r: seq<Ending>)
    ensures |r| == |ms|
    ensures forall i :: 0 <= i < |ms| ==> r[i] == InstanceEnding(ms[i])
  {
    if |ms| == 0 then []
    else
      assert forall i :: 1 <= i < |ms| ==> ms[1..][i - 1] == ms[i];
      [InstanceEnding(ms[0])] + Endings(ms[1..])
  }

  /** operator==: only the active and queued counts are compared. */
  function Equal(g: InstanceGroup, h: InstanceGroup): (r: bool)
  {
    |g.active| == |h.active| && |g.queued| == |h.queued|
  }

  predicate NoNulls(g: InstanceGroup)
  {
    && (forall i :: 0 <= i < |g.active| ==> g.active[i].Some?)
    && (forall i :: 0 <= i < |g.queued| ==> g.queued[i].Some?)
  }

  /** HasSameContents: the same counts and the same data type in every slot (the slots are dereferenced unchecked). */
  function HasSameContents(g: InstanceGroup, h: InstanceGroup): (r: bool)
    requires NoNulls(g) && NoNulls(h)
    ensures r ==> Equal(g, h)
    ensures r <==>
      (Equal(g, h)
       && (forall i :: 0 <= i < |g.active| ==> g.active[i].value.data.struct == h.active[i].value.data.struct)
       && (forall i :: 0 <= i < |g.queued| ==> g.queued[i].value.data.struct == h.queued[i].value.data.struct))
  {
    && |g.active| == |h.active| && |g.queued| == |h.queued|
    && (forall i :: 0 <= i < |g.active| ==> g.active[i].value.data.struct == h.active[i].value.data.struct)
    && (forall i :: 0 <= i < |g.queued| ==> g.queued[i].value.data.struct == h.queued[i].value.data.struct)
  }

  /** Equality does not look at the moves: two groups with different move types in their one slot still compare equal. */
  lemma EqualIgnoresContents(a: Instance, b: Instance)
    requires a.data.struct != b.data.struct
    ensures var g := InstanceGroup([Some(a)], [], NO_RESIDUAL, []);
      var h := InstanceGroup([Some(b)], [], NO_RESIDUAL, []);
      Equal(g, h) && !HasSameContents(g, h)
  {
    var g := InstanceGroup([Some(a)], [], NO_RESIDUAL, []);
    var h := InstanceGroup([Some(b)], [], NO_RESIDUAL, []);
    assert g.active[0].value.data.struct != h.active[0].value.data.struct;
  }

  /** Every slot holds an instance with logic, as the find-by-logic-class lookups dereference both. */
  predicate AllHaveLogic(s: seq<Option<Instance>>)
  {
    forall i :: 0 <= i < |s| ==> s[i].Some? && s[i].value.logic.Some?
  }

  /** PrivateFindActiveMove / PrivateFindQueuedMove by logic class: the first instance whose logic has exactly that class. */
  function FindByLogicClass(s: seq<Option<Instance>>, cls: string): (r: Option<Instance>)
    requires AllHaveLogic(s)
    ensures r.Some? ==> exists i :: 0 <= i < |s| && s[i] == r && r.value.logic.value.logicClass == cls
                          && forall j :: 0 <= j < i ==> s[j].value.logic.value.logicClass != cls
    ensures r.None? <==> forall i :: 0 <= i < |s| ==> s[i].value.logic.value.logicClass != cls
  {
    if |s| == 0 then None
    else if s[0].value.logic.value.logicClass == cls then s[0]
    else
      assert forall i :: 1 <= i < |s| ==> s[1..][i - 1] == s[i];
      FindByLogicClass(s[1..], cls)
  }

  /** The lookups by data type: the first instance whose data has exactly that script struct. */
  function FindByDataType(s: seq<Option<Instance>>, t: StructType): (r: Option<Instance>)
    requires forall i :: 0 <= i < |s| ==> s[i].Some?
    ensures r.Some? ==> exists i :: 0 <= i < |s| && s[i] == r && r.value.data.struct == t
                          && forall j :: 0 <= j < i ==> s[j].value.data.struct != t
    ensures r.None? <==> forall i :: 0 <= i < |s| ==> s[i].value.data.struct != t
  {
    if |s| == 0 then None
    else if s[0].value.data.struct == t then s[0]
    else
      assert forall i :: 1 <= i < |s| ==> s[1..][i - 1] == s[i];
      FindByDataType(s[1..], t)
  }

  /** The group's PopulateMissingActiveMoveLogic over one array: non-null slots without logic try to bind. */
  function PopulateAll(s: seq<Option<Instance>>, registered: seq<Logic>): (r: seq<Option<Instance>>)
    ensures |r| == |s|
    ensures forall i :: 0 <= i < |s| ==> (r[i].Some? <==> s[i].Some?)
    ensures forall i :: 0 <= i < |s| && s[i].Some? ==> r[i].value == PopulateLogic(s[i].value, registered).1
  {
    if |s| == 0 then []
    else
      assert forall i :: 1 <= i < |s| ==> s[1..][i - 1] == s[i];
      [if s[0].Some? then Some(PopulateLogic(s[0].value, registered).1) else None] + PopulateAll(s[1..], registered)
  }

  function PopulateMissingActiveMoveLogic(g: InstanceGroup, registered: seq<Logic>): (r: InstanceGroup)
    ensures r == g.(active := PopulateAll(g.active, registered), queued := PopulateAll(g.queued, registered))
  {
    g.(active := PopulateAll(g.active, registered), queued := PopulateAll(g.queued, registered))
  }

  /**
   * GenerateMixedMove: every active instance is asked for a move, and each
   * proposed move is mixed into the cumulative one with the instance's
   * priority and start time. The flag says whether any instance proposed
   * a move. Every slot must hold an instance.
   */
  function GenerateMixedMove(active: seq<Option<Instance>>, step: TimeStep, generate: (Logic, InstancedData, TimeStep) -> Option<ProposedMove>,
                             cum: ProposedMove, mixer: MovementMixer.MixerState): (r: (bool, ProposedMove, MovementMixer.MixerState))
    requires forall i :: 0 <= i < |active| ==> active[i].Some?
    ensures r.0 <==> exists i :: 0 <= i < |active| && GenerateMove(active[i].value, step, generate).Some?
    ensures !r.0 ==> r.1 == cum && r.2 == mixer
    decreases |active|
  {
    if |active| == 0 then (false, cum, mixer)
    else
      var inst := active[0].value;
      assert forall i :: 1 <= i < |active| ==> active[1..][i - 1] == active[i];
      match GenerateMove(inst, step, generate)
      case None => GenerateMixedMove(active[1..], step, generate, cum, mixer)
      case Some(p) =>
        var (c1, m1) := MovementMixer.MixLayeredMove(inst.logic.value.priority, inst.data.startSimTimeMs, p, cum, mixer);
        var rest := GenerateMixedMove(active[1..], step, generate, c1, m1);
        (true, rest.1, rest.2)
  }

  function ResetResidualVelocity(g: InstanceGroup): (r: InstanceGroup)
    ensures r == g.(residual := NO_RESIDUAL)
  {
    g.(residual := NO_RESIDUAL)
  }

  /** Reset: the group as constructed. */
  function Reset(g: InstanceGroup): (r: InstanceGroup)
    ensures r == NEW_INSTANCE_GROUP
  {
    ResetResidualVelocity(g).(queued := [], active := [], cancels := [])
  }

  /**
   * operator=: the active and queued arrays are copied pointer by pointer
   * (null slots included) and the cancellation requests with them; the
   * residual velocity, its clamping and its apply flag stay those of the
   * group assigned to.
   */
  function Assign(g: InstanceGroup, other: InstanceGroup): (r: InstanceGroup)
    ensures r.active == other.active && r.queued == other.queued && r.cancels == other.cancels
    ensures r.residual == g.residual
  {
    InstanceGroup(other.active, other.queued, g.residual, other.cancels)
  }

  /** ApplyResidualVelocity: the gathered residual is applied to the proposed move and then cleared. */
  function ApplyResidualVelocity(g: InstanceGroup, move: ProposedMove, clampToMaxSize: (Vec3, real) -> Vec3): (r: (InstanceGroup, ProposedMove))
    ensures r.0 == g.(residual := NO_RESIDUAL)
    ensures r.1 == ResidualVelocity.ApplyResidualVelocity(g.residual, move, clampToMaxSize).0
  {
    var (m, res) := ResidualVelocity.ApplyResidualVelocity(g.residual, move, clampToMaxSize);
    (g.(residual := res), m)
  }
}
