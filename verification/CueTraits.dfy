/**
 * Net simulation cue traits: who may invoke a cue, whether it replays
 * during a resimulate, and who it replicates to; the runtime tick-context
 * mask derived from the first two; the presets and the fallback for cue
 * types that declare no traits; and which serialization hooks a cue type
 * must provide. All three enums are flag enums, modelled by their values.
 */
module CueTraits {
  import opened Common
  import opened Bits

  // EJoltSimulationTickContext
  const CTX_NONE: nat := 0
  const CTX_AUTHORITY: nat := 1
  const CTX_PREDICT: nat := 2
  const CTX_RESIMULATE: nat := 4
  const CTX_SIM_EXTRAPOLATE: nat := 8
  const CTX_RESIM_EXTRAPOLATE: nat := 16

  // EJoltNetSimCueInvoker: each value is the tick-context bit of the same name
  const INVOKER_AUTHORITY: nat := CTX_AUTHORITY
  const INVOKER_PREDICT: nat := CTX_PREDICT
  const INVOKER_SIM_EXTRAPOLATE: nat := CTX_SIM_EXTRAPOLATE
  const INVOKER_ALL: nat := 11

  // EJoltNetSimCueReplicationTarget
  const TARGET_NONE: nat := 0
  const TARGET_AUTO_PROXY: nat := 1
  const TARGET_SIMULATED_PROXY: nat := 2
  const TARGET_INTERPOLATORS: nat := 4
  const TARGET_ALL: nat := 7

  /** An invoker mask: any combination of the three invoker bits. */
  predicate ValidInvoker(m: nat)
  {
    m < 16 && !Bit(m, 2)
  }

  /** INVOKER_ALL is the union of the three invoker bits and nothing else. */
  lemma InvokerAllBits(i: nat)
    ensures Bit(INVOKER_ALL, i) <==> i == 0 || i == 1 || i == 3
  {
    Pow2Table();
    if i >= 4 {
      assert INVOKER_ALL < Pow2(4);
      HighBitsClear(INVOKER_ALL, 4, i);
    }
  }

  /**
   * GetSimTickMask: the invoker bits, plus Resimulate when resimulation is
   * allowed and Predict may invoke, plus ResimExtrapolate when it is
   * allowed and SimExtrapolate may invoke.
   */
  function GetSimTickMask(invoker: nat, allowResimulate: bool): (r: nat)
    requires ValidInvoker(invoker)
    ensures forall i: nat :: i != 2 && i != 4 ==> (Bit(r, i) <==> Bit(invoker, i))
    ensures Bit(r, 2) <==> allowResimulate && Bit(invoker, 1)
    ensures Bit(r, 4) <==> allowResimulate && Bit(invoker, 3)
  {
    var auto := if allowResimulate && BitAnd(invoker, INVOKER_PREDICT) == INVOKER_PREDICT then CTX_RESIMULATE else CTX_NONE;
    var sim := if allowResimulate && BitAnd(invoker, INVOKER_SIM_EXTRAPOLATE) == INVOKER_SIM_EXTRAPOLATE then CTX_RESIM_EXTRAPOLATE else CTX_NONE;
    var r := BitOr(BitOr(invoker, auto), sim);
    assert INVOKER_PREDICT == Pow2(1) && CTX_RESIMULATE == Pow2(2);
    assert INVOKER_SIM_EXTRAPOLATE == Pow2(3) && CTX_RESIM_EXTRAPOLATE == Pow2(4);
    BitAndSingleBit(invoker, 1);
    BitAndSingleBit(invoker, 3);
    assert BitAnd(invoker, INVOKER_PREDICT) == INVOKER_PREDICT <==> Bit(invoker, 1) by {
      HasSingleBit(invoker, 1);
    }
    assert BitAnd(invoker, INVOKER_SIM_EXTRAPOLATE) == INVOKER_SIM_EXTRAPOLATE <==> Bit(invoker, 3) by {
      HasSingleBit(invoker, 3);
    }
    forall i: nat
      ensures Bit(r, i) <==> Bit(invoker, i) || (i == 2 && Bit(auto, 2)) || (i == 4 && Bit(sim, 4))
    {
      BitOrBit(BitOr(invoker, auto), sim, i);
      BitOrBit(invoker, auto, i);
      ZeroHasNoBits(i);
      Pow2Bit(2, i);
      Pow2Bit(4, i);
    }
    Pow2Bit(2, 2);
    Pow2Bit(4, 4);
    ZeroHasNoBits(2);
    ZeroHasNoBits(4);
    assert !Bit(invoker, 4) by {
      Pow2Table();
      assert invoker < Pow2(4);
      HighBitsClear(invoker, 4, 4);
    }
    r
  }

  /** `(x & (1 << c)) == (1 << c)` tests bit c, just as `!= 0` does. */
  lemma HasSingleBit(x: nat, c: nat)
    ensures BitAnd(x, Pow2(c)) == Pow2(c) <==> Bit(x, c)
  {
    BitAndSingleBit(x, c);
    forall i: nat
      ensures Bit(BitAnd(x, Pow2(c)), i) == (Bit(x, i) && i == c)
    {
      BitAndBit(x, Pow2(c), i);
      Pow2Bit(c, i);
    }
    if Bit(x, c) {
      forall i: nat
        ensures Bit(BitAnd(x, Pow2(c)), i) == Bit(Pow2(c), i)
      {
        Pow2Bit(c, i);
      }
      BitsDetermineValue(BitAnd(x, Pow2(c)), Pow2(c));
    } else {
      Pow2Bit(c, c);
    }
  }

  /**
   * The derived mask never pairs a resimulate context with an invoker that
   * cannot run it: Resimulate only alongside Predict, ResimExtrapolate only
   * alongside SimExtrapolate, and never without permission to resimulate.
   */
  lemma NoInvalidResimulate(invoker: nat, allowResimulate: bool)
    requires ValidInvoker(invoker)
    ensures var m := GetSimTickMask(invoker, allowResimulate);
      (Bit(m, 2) ==> Bit(m, 1) && allowResimulate) && (Bit(m, 4) ==> Bit(m, 3) && allowResimulate)
  {
  }

  // ---------------------------------------------------------------------
  // Traits and presets
  // ---------------------------------------------------------------------

  datatype Traits = Traits(invokeMask: nat, resimulate: bool, replicationTarget: nat)

  predicate ValidTraits(t: Traits)
  {
    ValidInvoker(t.invokeMask) && t.replicationTarget <= TARGET_ALL
  }

  const WEAK: Traits := Traits(INVOKER_ALL, false, TARGET_NONE)
  const WEAK_OWNING_CLIENT_ONLY: Traits := Traits(INVOKER_PREDICT, false, TARGET_NONE)
  const WEAK_CLIENTS_ONLY: Traits := Traits(INVOKER_PREDICT + INVOKER_SIM_EXTRAPOLATE, false, TARGET_NONE)
  const AUTHORITY_ONLY: Traits := Traits(INVOKER_AUTHORITY, false, TARGET_NONE)
  const REPLICATED_NON_PREDICTED: Traits := Traits(INVOKER_AUTHORITY, false, TARGET_ALL)
  const REPLICATED_X_OR_PREDICTED: Traits := Traits(INVOKER_ALL, false, TARGET_INTERPOLATORS)
  const STRONG: Traits := Traits(INVOKER_ALL, true, TARGET_ALL)
  const NON_REPLICATED_RESIMULATED: Traits := Traits(INVOKER_ALL, true, TARGET_NONE)

  /** TSelectJoltNetSimCueTraits: the cue's own Traits if it has any, else the default, Weak. */
  function SelectTraits(own: Option<Traits>): (t: Traits)
    ensures own.Some? ==> t == own.value
    ensures own.None? ==> t.invokeMask == INVOKER_ALL && !t.resimulate && t.replicationTarget == TARGET_NONE
  {
    if own.Some? then own.value else WEAK
  }

  /** NetSerialize is needed exactly when the cue replicates. */
  predicate RequiresNetSerialize(t: Traits)
  {
    t.replicationTarget != TARGET_NONE
  }

  /** NetIdentical is needed when the cue replicates or replays during resimulates. */
  predicate RequiresNetIdentical(t: Traits)
  {
    t.replicationTarget != TARGET_NONE || t.resimulate
  }

  /** A cue type that must serialize must also compare; a cue without traits needs neither. */
  lemma RequirementsOrdered(t: Traits, own: Option<Traits>)
    ensures RequiresNetSerialize(t) ==> RequiresNetIdentical(t)
    ensures own.None? ==> !RequiresNetSerialize(SelectTraits(own)) && !RequiresNetIdentical(SelectTraits(own))
  {
  }

  /**
   * A cue without traits can be invoked in every non-resimulate context
   * and never during a resimulate.
   */
  lemma DefaultCueTickMask(own: Option<Traits>)
    requires own.None?
    ensures var m := GetSimTickMask(SelectTraits(own).invokeMask, SelectTraits(own).resimulate);
      Bit(m, 0) && Bit(m, 1) && Bit(m, 3) && !Bit(m, 2) && !Bit(m, 4)
  {
    InvokerAllBits(0);
    InvokerAllBits(1);
    InvokerAllBits(2);
    InvokerAllBits(3);
  }

  /** Strong cues replay on predicting and extrapolating resimulates and need both hooks. */
  lemma StrongCueTickMask()
    ensures var m := GetSimTickMask(STRONG.invokeMask, STRONG.resimulate);
      Bit(m, 2) && Bit(m, 4) && RequiresNetSerialize(STRONG) && RequiresNetIdentical(STRONG)
  {
    InvokerAllBits(1);
    InvokerAllBits(2);
    InvokerAllBits(3);
  }
}
