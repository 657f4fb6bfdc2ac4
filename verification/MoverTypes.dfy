/**
 * Vocabulary shared by the movement layer: vector arithmetic on exact
 * reals, the mix modes of proposed moves, the settings a layered move
 * applies when it finishes, the simulation time step and the proposed
 * move a mode or layered move produces.
 */
module MoverTypes {
  import opened Common
  import opened Conversions

  const ZERO_VECTOR: Vec3 := Vec3(0.0, 0.0, 0.0)

  /** UE_BIG_NUMBER. */
  const BIG_NUMBER: real := 340000000000000000000000000000000000000.0

  /** TNumericLimits<float>::Max(): (2 - 2^-23) * 2^127. */
  const FLT_MAX: real := (Pow2(128) - Pow2(104)) as real

  /** TNumericLimits<double>::Max(): (2 - 2^-52) * 2^1023. */
  const DBL_MAX: real := (Pow2(1024) - Pow2(971)) as real

  function Add(a: Vec3, b: Vec3): Vec3
  {
    Vec3(a.x + b.x, a.y + b.y, a.z + b.z)
  }

  function Sub(a: Vec3, b: Vec3): Vec3
  {
    Vec3(a.x - b.x, a.y - b.y, a.z - b.z)
  }

  function Dot(a: Vec3, b: Vec3): real
  {
    a.x * b.x + a.y * b.y + a.z * b.z
  }

  /** FVector::ProjectOnToNormal: the part of `v` along the unit normal `n`. */
  function ProjectOnToNormal(v: Vec3, n: Vec3): Vec3
  {
    Scale(n, Dot(v, n))
  }

  /** EJoltMoveMixMode. */
  datatype MixMode = AdditiveVelocity | OverrideVelocity | OverrideAll | OverrideAllExceptVerticalVelocity

  /** The modes that override the cumulative velocity outright. */
  predicate OverridesVelocity(m: MixMode)
  {
    m == OverrideVelocity || m == OverrideAll
  }

  /** EJoltLayeredMoveFinishVelocityMode (its declaration is not part of this model; the three values the code uses). */
  datatype FinishVelocityMode = MaintainLastRootMotionVelocity | SetVelocity | ClampVelocity

  /** FJoltLayeredMoveFinishVelocitySettings. */
  datatype FinishVelocitySettings = FinishVelocitySettings(mode: FinishVelocityMode, setVelocity: Vec3, clampVelocity: real)

  /** The settings of a move that says nothing about its finish. */
  const DEFAULT_FINISH: FinishVelocitySettings := FinishVelocitySettings(MaintainLastRootMotionVelocity, ZERO_VECTOR, 0.0)

  /**
   * FJoltMoverTimeStep. Its declaration is not part of this model: the
   * fields are the ones the code reads, and a default-constructed step is
   * taken to be all zeros.
   */
  datatype TimeStep = TimeStep(serverFrame: int, baseSimTimeMs: real, stepMs: real, isResimulating: bool)

  const DEFAULT_TIME_STEP: TimeStep := TimeStep(0, 0.0, 0.0, false)

  /** FName NAME_None. */
  const NAME_NONE: string := "None"

  /** FJoltProposedMove. */
  datatype ProposedMove = ProposedMove(
    preferredMode: string,
    directionIntent: Vec3,
    linearVelocity: Vec3,
    angularVelocityDegrees: Vec3,
    hasDirIntent: bool,
    mixMode: MixMode)

  const EMPTY_PROPOSED_MOVE: ProposedMove :=
    ProposedMove(NAME_NONE, ZERO_VECTOR, ZERO_VECTOR, ZERO_VECTOR, false, AdditiveVelocity)
}
