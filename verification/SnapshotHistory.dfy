/**
 * The physics world subsystem's snapshot history: a fixed ring of slots,
 * each holding the command frame it represents and the opaque bytes the
 * physics engine saved for that frame. Saving overwrites the slot the frame
 * maps to; restoring succeeds only if that slot still holds the frame.
 */
module SnapshotHistory {
  import opened Common
  import opened Bits

  const MIN_SNAPSHOT_CAPACITY: int := 8
  const DEFAULT_SNAPSHOT_HISTORY_CAPACITY: int := 256

  // ---------------------------------------------------------------------
  // RoundUpToPowerOfTwo: the int32 bit smear
  // ---------------------------------------------------------------------

  /** `x |= x >> s`. */
  function SmearStep(x: nat, s: nat): (r: nat)
    ensures r >= x
  {
    BitOr(x, Shr(x, s))
  }

  /** The five smear steps: shifts 1, 2, 4, 8, 16. */
  function Smear(x: nat): nat
  {
    SmearStep(SmearStep(SmearStep(SmearStep(SmearStep(x, 1), 2), 4), 8), 16)
  }

  /** An int32 increment that wraps past INT32_MAX. */
  function WrapInt32(n: int): (r: int)
    requires 0 <= n < 0x1_0000_0000
    ensures IsInt32(r)
  {
    if n <= INT32_MAX then n else n - 0x1_0000_0000
  }

  /**
   * Values up to 1 map to 1; otherwise decrement, smear the highest set bit
   * into every lower position and increment, in int32 arithmetic.
   */
  function RoundUpToPowerOfTwo(v: int): (r: int)
    requires IsInt32(v)
    ensures v <= 1 ==> r == 1
    ensures IsInt32(r)
  {
    if v <= 1 then 1
    else
      var s := Smear(v - 1);
      Pow2Values();
      SmearBounded(v - 1, 31);
      WrapInt32(s + 1)
  }

  /** Some bit of x in [i, i + w) is set. */
  predicate Window(x: nat, i: nat, w: nat)
  {
    exists j: nat :: i <= j < i + w && Bit(x, j)
  }

  lemma {:induction false} SmearStepBounded(x: nat, s: nat, n: nat)
    requires x < Pow2(n)
    ensures SmearStep(x, s) < Pow2(n)
  {
    var r := SmearStep(x, s);
    forall i: nat | i >= n ensures !Bit(r, i) {
      BitOrBit(x, Shr(x, s), i);
      ShrBit(x, s, i);
      HighBitsClear(x, n, i);
      HighBitsClear(x, n, i + s);
    }
    if r >= Pow2(n) {
      BitLenBounds(r);
      BitLenAbove(r, n);
      assert false;
    }
  }

  lemma SmearBounded(x: nat, n: nat)
    requires x < Pow2(n)
    ensures Smear(x) < Pow2(n)
  {
    var y1 := SmearStep(x, 1);
    SmearStepBounded(x, 1, n);
    var y2 := SmearStep(y1, 2);
    SmearStepBounded(y1, 2, n);
    var y3 := SmearStep(y2, 4);
    SmearStepBounded(y2, 4, n);
    var y4 := SmearStep(y3, 8);
    SmearStepBounded(y3, 8, n);
    SmearStepBounded(y4, 16, n);
  }

  /** One smear step doubles the window each bit summarises. */
  lemma {:induction false} SmearStepWindow(x: nat, y: nat, s: nat)
    requires forall i: nat :: Bit(y, i) == Window(x, i, s)
    ensures forall i: nat :: Bit(SmearStep(y, s), i) == Window(x, i, 2 * s)
  {
    forall i: nat ensures Bit(SmearStep(y, s), i) == Window(x, i, 2 * s) {
      BitOrBit(y, Shr(y, s), i);
      ShrBit(y, s, i);
      assert Bit(y, i + s) == Window(x, i + s, s);
      if Window(x, i, 2 * s) {
        var j: nat :| i <= j < i + 2 * s && Bit(x, j);
        if j < i + s {
          assert Window(x, i, s);
        } else {
          assert Window(x, i + s, s);
        }
      }
    }
  }

  /** After the five steps every bit summarises the 32 bits at or above it. */
  lemma SmearWindow(x: nat)
    ensures forall i: nat :: Bit(Smear(x), i) == Window(x, i, 32)
  {
    forall i: nat ensures Bit(x, i) == Window(x, i, 1) {
      if Window(x, i, 1) {
        var j: nat :| i <= j < i + 1 && Bit(x, j);
        assert j == i;
      }
    }
    var y1 := SmearStep(x, 1);
    SmearStepWindow(x, x, 1);
    var y2 := SmearStep(y1, 2);
    SmearStepWindow(x, y1, 2);
    var y3 := SmearStep(y2, 4);
    SmearStepWindow(x, y2, 4);
    var y4 := SmearStep(y3, 8);
    SmearStepWindow(x, y3, 8);
    SmearStepWindow(x, y4, 16);
  }

  /** One bit of the smear, given that it summarises the 32-bit window. */
  lemma SmearBitIsLowOnesBit(x: nat, n: nat, s: nat, i: nat)
    requires x < Pow2(n) && n >= 1 && Bit(x, n - 1)
    requires Bit(s, i) == Window(x, i, 32) && n <= 32
    ensures Bit(s, i) == Bit(Pow2(n) - 1, i)
  {
    LowOnesBit(n, i);
    if i < n {
      assert i <= n - 1 < i + 32;
      assert Window(x, i, 32);
    } else if Window(x, i, 32) {
      var j: nat :| i <= j < i + 32 && Bit(x, j);
      HighBitsClear(x, n, j);
      assert false;
    }
  }

  /** A value whose every bit summarises the 32-bit window of x is 2^BitLen(x) - 1. */
  lemma LowOnesFromWindows(x: nat, n: nat, s: nat)
    requires x > 0 && n == BitLen(x) && n <= 32
    requires forall i: nat :: Bit(s, i) == Window(x, i, 32)
    ensures s == Pow2(n) - 1
  {
    BitLenBounds(x);
    forall i: nat ensures Bit(s, i) == Bit(Pow2(n) - 1, i) {
      SmearBitIsLowOnesBit(x, n, s, i);
    }
    BitsDetermineValue(s, Pow2(n) - 1);
  }

  /** The smear of a positive value below 2^31 is 2^BitLen - 1. */
  lemma SmearIsLowOnes(x: nat)
    requires 0 < x && BitLen(x) <= 31
    ensures Smear(x) == Pow2(BitLen(x)) - 1
  {
    SmearWindow(x);
    LowOnesFromWindows(x, BitLen(x), Smear(x));
  }

  lemma Pow2Values()
    ensures Pow2(30) == 0x4000_0000 && Pow2(31) == 0x8000_0000
  {
    Pow2Table();
  }

  /** For 2 <= v <= 2^30 the result is 2^BitLen(v - 1), with no wrap. */
  lemma RoundUpIsPowerOfBitLen(v: int)
    requires 2 <= v <= 0x4000_0000
    ensures BitLen(v - 1) <= 30
    ensures RoundUpToPowerOfTwo(v) == Pow2(BitLen(v - 1))
  {
    Pow2Values();
    BitLenMono(v - 1, 30);
    SmearIsLowOnes(v - 1);
    Pow2Mono(BitLen(v - 1), 30);
  }

  /**
   * For 2 <= v <= 2^30 the result is the least power of two at or above v:
   * a power of two, at least v, and its half is below v.
   */
  lemma RoundUpToPowerOfTwoIsLeastPower(v: int)
    requires 2 <= v <= 0x4000_0000
    ensures var r := RoundUpToPowerOfTwo(v);
      v <= r && IsPowerOfTwo(r) && r / 2 < v
  {
    var x := v - 1;
    var n := BitLen(x);
    RoundUpIsPowerOfBitLen(v);
    BitLenBounds(x);
    var r := RoundUpToPowerOfTwo(v);
    assert r == Pow2(n) && n >= 1;
    assert r == 2 * Pow2(n - 1);
    IsPowerOfTwoIff(r);
  }

  /**
   * Above 2^30 the increment overflows int32 and the result wraps to
   * INT32_MIN.
   */
  lemma RoundUpToPowerOfTwoWrapsAbove2To30(v: int)
    requires 0x4000_0000 < v <= INT32_MAX
    ensures RoundUpToPowerOfTwo(v) == INT32_MIN
  {
    Pow2Values();
    var x := v - 1;
    BitLenMono(x, 31);
    SmearIsLowOnes(x);
    BitLenBounds(x);
    if BitLen(x) < 31 {
      Pow2Mono(BitLen(x), 30);
      assert false;
    }
  }

  // ---------------------------------------------------------------------
  // The history ring
  // ---------------------------------------------------------------------

  /** One slot: the frame it represents and the engine's saved bytes. */
  datatype SnapshotSlot = SnapshotSlot(frame: int, bytes: seq<Byte>)

  /** FJoltPhysicsSnapshotSlot::Reset. */
  const RESET_SLOT: SnapshotSlot := SnapshotSlot(INDEX_NONE, [])

  /** The settings the history reads. */
  datatype SnapshotSettings = SnapshotSettings(
    historyCapacity: int,
    forcePowerOfTwo: bool,
    storeSnapshotsOnServer: bool)

  datatype NetMode = Standalone | DedicatedServer | ListenServer | Client

  /**
   * TArray::SetNum requires a non-negative size, which the rounded
   * capacity violates once it wraps.
   */
  predicate ValidSettings(s: SnapshotSettings)
  {
    IsInt32(s.historyCapacity) && (s.forcePowerOfTwo ==> s.historyCapacity <= 0x4000_0000)
  }

  /** The capacity InitializeSnapshotHistory chooses. */
  function DesiredCapacity(s: SnapshotSettings): (r: int)
    requires ValidSettings(s)
    ensures r >= MIN_SNAPSHOT_CAPACITY && r >= s.historyCapacity
    ensures !s.forcePowerOfTwo ==> r == Max(s.historyCapacity, MIN_SNAPSHOT_CAPACITY)
    ensures s.forcePowerOfTwo ==> r >= 0 && IsPowerOfTwo(r) && r / 2 < Max(s.historyCapacity, MIN_SNAPSHOT_CAPACITY)
  {
    var desired := Max(s.historyCapacity, MIN_SNAPSHOT_CAPACITY);
    if s.forcePowerOfTwo then
      RoundUpToPowerOfTwoIsLeastPower(desired);
      RoundUpToPowerOfTwo(desired)
    else desired
  }

  /** InitializeSnapshotHistory: the desired number of reset slots. */
  function InitializeSnapshotHistory(s: SnapshotSettings): (h: seq<SnapshotSlot>)
    requires ValidSettings(s)
    ensures |h| >= MIN_SNAPSHOT_CAPACITY && |h| >= s.historyCapacity
    ensures !s.forcePowerOfTwo ==> |h| == Max(s.historyCapacity, MIN_SNAPSHOT_CAPACITY)
    ensures s.forcePowerOfTwo ==> IsPowerOfTwo(|h|) && |h| / 2 < Max(s.historyCapacity, MIN_SNAPSHOT_CAPACITY)
    ensures forall i :: 0 <= i < |h| ==> h[i] == RESET_SLOT
  {
    seq(DesiredCapacity(s), _ => RESET_SLOT)
  }

  /** EnsureSnapshotHistoryReady: initialise an empty history. */
  function EnsureReady(h: seq<SnapshotSlot>, s: SnapshotSettings): (r: seq<SnapshotSlot>)
    requires ValidSettings(s)
    ensures |h| > 0 ==> r == h
    ensures |r| > 0
  {
    if |h| <= 0 then InitializeSnapshotHistory(s) else h
  }

  /**
   * FrameToSlotIndex: the mask `Frame & (Capacity - 1)` when the power of
   * two flag is set and the capacity is one, else `Frame % Capacity`.
   * A positive capacity and a non-negative frame are required.
   */
  function FrameToSlotIndex(capacity: int, forcePowerOfTwo: bool, frame: int): (r: int)
    requires capacity > 0 && frame >= 0
    ensures 0 <= r < capacity
  {
    if forcePowerOfTwo && IsPowerOfTwo(capacity) then
      var masked := BitAnd(frame, capacity - 1);
      MaskedSlotIsModulo(frame, capacity);
      masked
    else frame % capacity
  }

  /** The mask fast path agrees with the general modulo. */
  lemma MaskedSlotIsModulo(frame: nat, capacity: nat)
    requires IsPowerOfTwo(capacity)
    ensures BitAnd(frame, capacity - 1) == frame % capacity
  {
    IsPowerOfTwoIff(capacity);
    var k: nat :| Pow2(k) == capacity;
    LowMaskIsMod(frame, k);
  }

  lemma FrameToSlotIndexIsModulo(capacity: int, forcePowerOfTwo: bool, frame: int)
    requires capacity > 0 && frame >= 0
    ensures FrameToSlotIndex(capacity, forcePowerOfTwo, frame) == frame % capacity
  {
    if forcePowerOfTwo && IsPowerOfTwo(capacity) {
      MaskedSlotIsModulo(frame, capacity);
    }
  }

  /** The subsystem's history together with its settings. */
  datatype Subsystem = Subsystem(settings: SnapshotSettings, netMode: NetMode, history: seq<SnapshotSlot>)

  predicate Valid(w: Subsystem)
  {
    ValidSettings(w.settings)
  }

  function SlotOf(w: Subsystem, frame: int): (r: int)
    requires |w.history| > 0 && frame >= 0
    ensures 0 <= r < |w.history|
  {
    FrameToSlotIndex(|w.history|, w.settings.forcePowerOfTwo, frame)
  }

  /** A dedicated server keeps no snapshots unless configured to. */
  predicate SkipsSnapshots(w: Subsystem)
  {
    !w.settings.storeSnapshotsOnServer && w.netMode == DedicatedServer
  }

  /**
   * SaveStateForFrame: overwrite the frame's slot with the frame and the
   * engine's bytes. A non-negative frame is required.
   */
  function SaveStateForFrame(w: Subsystem, frame: int, data: seq<Byte>): (r: Subsystem)
    requires Valid(w) && frame >= 0
    ensures r.settings == w.settings && r.netMode == w.netMode
    ensures SkipsSnapshots(w) ==> r == w
    ensures !SkipsSnapshots(w) ==>
      var h := EnsureReady(w.history, w.settings);
      |r.history| == |h| &&
      r.history[SlotOf(r, frame)] == SnapshotSlot(frame, data) &&
      forall i :: 0 <= i < |h| && i != SlotOf(r, frame) ==> r.history[i] == h[i]
  {
    if SkipsSnapshots(w) then w
    else
      var h := EnsureReady(w.history, w.settings);
      var idx := FrameToSlotIndex(|h|, w.settings.forcePowerOfTwo, frame);
      w.(history := h[idx := SnapshotSlot(frame, data)])
  }

  /** The outcome of RestoreStateForFrame: success and the bytes handed to the engine. */
  datatype RestoreResult = RestoreResult(world: Subsystem, restored: Option<seq<Byte>>)

  /**
   * RestoreStateForFrame: fails unless the slot still represents the frame
   * and holds bytes; on success the slot's bytes are restored.
   */
  function RestoreStateForFrame(w: Subsystem, frame: int): (r: RestoreResult)
    requires Valid(w) && frame >= 0
    ensures r.world == w.(history := EnsureReady(w.history, w.settings))
    ensures var slot := r.world.history[SlotOf(r.world, frame)];
      (r.restored.Some? <==> slot.frame == frame && |slot.bytes| > 0) &&
      (r.restored.Some? ==> r.restored.value == slot.bytes)
  {
    var w' := w.(history := EnsureReady(w.history, w.settings));
    var slot := w'.history[SlotOf(w', frame)];
    if slot.frame != frame then RestoreResult(w', None)
    else if |slot.bytes| <= 0 then RestoreResult(w', None)
    else RestoreResult(w', Some(slot.bytes))
  }

  /** HasStateForFrame: an empty history and INDEX_NONE have no state. */
  function HasStateForFrame(w: Subsystem, frame: int): (r: bool)
    requires frame >= 0 || frame == INDEX_NONE
    ensures |w.history| == 0 || frame == INDEX_NONE ==> !r
  {
    if |w.history| <= 0 || frame == INDEX_NONE then false
    else
      var slot := w.history[SlotOf(w, frame)];
      slot.frame == frame && |slot.bytes| > 0
  }

  /** GetLastPhysicsState: the bytes of the last slot, if there is one. */
  function GetLastPhysicsState(w: Subsystem): (r: Option<seq<Byte>>)
    ensures r.None? <==> |w.history| == 0
    ensures r.Some? ==> r.value == w.history[|w.history| - 1].bytes
  {
    if |w.history| == 0 then None else Some(w.history[|w.history| - 1].bytes)
  }

  /** Restoring succeeds exactly when the history reports the frame. */
  lemma RestoreAgreesWithHasState(w: Subsystem, frame: int)
    requires Valid(w) && frame >= 0 && |w.history| > 0
    ensures RestoreStateForFrame(w, frame).restored.Some? <==> HasStateForFrame(w, frame)
  {
  }

  /** After a save of non-empty bytes the frame is present and restores those bytes. */
  lemma SaveThenRestore(w: Subsystem, frame: int, data: seq<Byte>)
    requires Valid(w) && frame >= 0 && |data| > 0 && !SkipsSnapshots(w)
    ensures HasStateForFrame(SaveStateForFrame(w, frame, data), frame)
    ensures RestoreStateForFrame(SaveStateForFrame(w, frame, data), frame).restored == Some(data)
  {
  }

  /**
   * A saved frame stays present while later saves go to other slots: a save
   * of frame g leaves HasStateForFrame(f) unchanged when g maps elsewhere.
   */
  lemma SaveElsewherePreservesHasState(w: Subsystem, f: int, g: int, data: seq<Byte>)
    requires Valid(w) && f >= 0 && g >= 0 && |w.history| > 0
    requires SlotOf(w, f) != SlotOf(w, g)
    ensures HasStateForFrame(SaveStateForFrame(w, g, data), f) == HasStateForFrame(w, f)
  {
  }

  /** Saving a frame that shares f's slot evicts f. */
  lemma CollidingSaveEvicts(w: Subsystem, f: int, g: int, data: seq<Byte>)
    requires Valid(w) && f >= 0 && g >= 0 && f != g && |w.history| > 0 && !SkipsSnapshots(w)
    requires SlotOf(w, f) == SlotOf(w, g)
    ensures !HasStateForFrame(SaveStateForFrame(w, g, data), f)
  {
  }

  /** Frames a capacity apart share a slot. */
  lemma FramesOneCapacityApartCollide(w: Subsystem, f: int)
    requires f >= 0 && |w.history| > 0
    ensures SlotOf(w, f) == SlotOf(w, f + |w.history|)
  {
    var c := |w.history|;
    FrameToSlotIndexIsModulo(c, w.settings.forcePowerOfTwo, f);
    FrameToSlotIndexIsModulo(c, w.settings.forcePowerOfTwo, f + c);
    DivUnique(f + c, c, f / c + 1, f % c);
  }
}
