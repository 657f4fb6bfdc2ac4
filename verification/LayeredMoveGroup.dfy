/**
 * The older layered-move group (FJoltLayeredMoveGroup): moves are queued,
 * become active at the next flush, and leave the active list when they
 * finish or are cancelled by tag, handing their finish-velocity settings
 * to the group's residual velocity on the way out. The moves' own
 * callbacks (OnStart, OnEnd, GenerateMove) are left to the move types.
 */
module LayeredMoveGroup {
  import opened Common
  import opened Conversions
  import opened MoverTypes
  import opened ResidualVelocity
  import MoverDataCollection

  type StructType = MoverDataCollection.StructType

  /** LayeredMove_InvalidTime: the start time of a move that has not started. */
  const INVALID_TIME: real := -BIG_NUMBER

  /** FJoltLayeredMoveBase's replicated state; `struct` is its script struct. */
  datatype LayeredMove = LayeredMove(
    struct: StructType,
    mixMode: MixMode,
    priority: Byte,
    durationMs: real,
    startSimTimeMs: real,
    finish: FinishVelocitySettings)

  /** A move as FJoltLayeredMoveBase's constructor leaves it. */
  function NewMove(struct: StructType): (m: LayeredMove)
    ensures !IsStarted(m)
  {
    LayeredMove(struct, AdditiveVelocity, 0, -1.0, INVALID_TIME, DEFAULT_FINISH)
  }

  predicate IsStarted(m: LayeredMove)
  {
    m.startSimTimeMs >= 0.0
  }

  /**
   * IsFinished: a started move with a positive duration finishes once its
   * duration has elapsed, and one with a zero duration finishes after the
   * tick it started on. A negative duration never finishes.
   */
  predicate IsFinished(m: LayeredMove, nowMs: real)
    ensures IsFinished(m, nowMs) ==> IsStarted(m) && m.durationMs >= 0.0
    ensures IsStarted(m) && m.durationMs == 0.0 ==> IsFinished(m, nowMs)
  {
    var started := IsStarted(m);
    (started && m.durationMs > 0.0 && m.startSimTimeMs + m.durationMs <= nowMs)
    || (started && m.durationMs == 0.0)
  }

  /** StartMove: the move is stamped with the current simulation time. */
  function StartMove(m: LayeredMove, nowMs: real): (r: LayeredMove)
    ensures r.startSimTimeMs == nowMs && r == m.(startSimTimeMs := r.startSimTimeMs)
    ensures nowMs >= 0.0 ==> forall t :: IsFinished(r, t) <==>
      m.durationMs == 0.0 || (m.durationMs > 0.0 && t >= nowMs + m.durationMs)
  {
    m.(startSimTimeMs := nowMs)
  }

  /** Once finished, a move stays finished as time goes on. */
  lemma FinishedStaysFinished(m: LayeredMove, nowMs: real, laterMs: real)
    requires nowMs <= laterMs
    ensures IsFinished(m, nowMs) ==> IsFinished(m, laterMs)
  {
  }

  // ---------------------------------------------------------------------
  // The group
  // ---------------------------------------------------------------------

  /** A tag cancellation request: the tag and whether it must match exactly. */
  datatype CancelRequest = CancelRequest(tag: string, exact: bool)

  /** Null shared pointers are None. */
  datatype Group = Group(
    active: seq<Option<LayeredMove>>,
    queued: seq<Option<LayeredMove>>,
    residual: Residual,
    cancels: seq<CancelRequest>)

  /** The constructor: no moves and no residual velocity. */
  const NEW_GROUP: Group := Group([], [], NO_RESIDUAL, [])

  /** QueueLayeredMove: a valid move joins the end of the queue; a null one is refused. */
  function QueueLayeredMove(g: Group, m: Option<LayeredMove>): (r: Group)
    ensures m.Some? ==> r == g.(queued := g.queued + [m])
    ensures m.None? ==> r == g
  {
    if m.Some? then g.(queued := g.queued + [m]) else g
  }

  /** CancelMovesByTag only records the request; the next flush carries it out. */
  function CancelMovesByTag(g: Group, tag: string, exact: bool): (r: Group)
    ensures r.cancels == g.cancels + [CancelRequest(tag, exact)]
    ensures r == g.(cancels := r.cancels)
  {
    g.(cancels := g.cancels + [CancelRequest(tag, exact)])
  }

  /** The moves of `s` that `p` selects, in order. */
  function Removed<T>(s: seq<Option<T>>, p: T -> bool): (r: seq<T>)
    ensures forall i :: 0 <= i < |r| ==> p(r[i]) && Some(r[i]) in s
    ensures forall i :: 0 <= i < |s| && s[i].Some? && p(s[i].value) ==> s[i].value in r
  {
    if |s| == 0 then []
    else
      var rest := Removed(s[1..], p);
      assert forall i :: 1 <= i < |s| ==> s[i] == s[1..][i - 1];
      if s[0].Some? && p(s[0].value) then [s[0].value] + rest else rest
  }

  /** A non-null move that `hasTag` matches against `req`. */
  predicate Cancels<T>(hasTag: (T, CancelRequest) -> bool, req: CancelRequest, o: Option<T>)
  {
    o.Some? && hasTag(o.value, req)
  }

  /** A queued slot a request removes: a matching move, or a null one when `dropNull` says so. */
  predicate DropsQueued<T>(hasTag: (T, CancelRequest) -> bool, req: CancelRequest, dropNull: bool, o: Option<T>)
  {
    (dropNull && o.None?) || Cancels(hasTag, req, o)
  }

  /**
   * The cancellation pass of FlushMoveArrays: for each request in turn,
   * the matching queued moves are dropped and the matching active ones
   * removed and ended. Returns the surviving active and queued lists and
   * the ended moves in the order they ended. `hasTag` is HasGameplayTag,
   * which each move type defines; `dropNull` says whether each request
   * also drops null queued slots (the move-instance group's does).
   */
  function CancelAll<T>(active: seq<Option<T>>, queued: seq<Option<T>>, reqs: seq<CancelRequest>,
                        hasTag: (T, CancelRequest) -> bool, dropNull: bool): (r: (seq<Option<T>>, seq<Option<T>>, seq<T>))
    ensures forall i :: 0 <= i < |r.0| ==> r.0[i] in active
    ensures forall i :: 0 <= i < |r.1| ==> r.1[i] in queued
    ensures forall i :: 0 <= i < |r.2| ==> Some(r.2[i]) in active
    decreases |reqs|
  {
    if |reqs| == 0 then (active, queued, [])
    else
      var req := reqs[0];
      var q1 := Filter(queued, o => !DropsQueued(hasTag, req, dropNull, o));
      var a1 := Filter(active, o => !Cancels(hasTag, req, o));
      var ended := Removed(active, m => hasTag(m, req));
      var rest := CancelAll(a1, q1, reqs[1..], hasTag, dropNull);
      (rest.0, rest.1, ended + rest.2)
  }

  /** After cancellation no surviving active or queued slot is one any request removes. */
  lemma {:induction false} CancelAllClears<T>(active: seq<Option<T>>, queued: seq<Option<T>>, reqs: seq<CancelRequest>,
                                              hasTag: (T, CancelRequest) -> bool, dropNull: bool)
    ensures var r := CancelAll(active, queued, reqs, hasTag, dropNull);
      && (forall i, j :: 0 <= i < |r.0| && 0 <= j < |reqs| ==> !Cancels(hasTag, reqs[j], r.0[i]))
      && (forall i, j :: 0 <= i < |r.1| && 0 <= j < |reqs| ==> !DropsQueued(hasTag, reqs[j], dropNull, r.1[i]))
    decreases |reqs|
  {
    if |reqs| > 0 {
      var req := reqs[0];
      var q1 := Filter(queued, o => !DropsQueued(hasTag, req, dropNull, o));
      var a1 := Filter(active, o => !Cancels(hasTag, req, o));
      CancelAllClears(a1, q1, reqs[1..], hasTag, dropNull);
      var r := CancelAll(active, queued, reqs, hasTag, dropNull);
      assert r.0 == CancelAll(a1, q1, reqs[1..], hasTag, dropNull).0;
      assert r.1 == CancelAll(a1, q1, reqs[1..], hasTag, dropNull).1;
      forall i, j | 0 <= i < |r.0| && 0 <= j < |reqs|
        ensures !Cancels(hasTag, reqs[j], r.0[i])
      {
        if j == 0 {
          assert r.0[i] in a1;
        } else {
          assert reqs[1..][j - 1] == reqs[j];
        }
      }
      forall i, j | 0 <= i < |r.1| && 0 <= j < |reqs|
        ensures !DropsQueued(hasTag, reqs[j], dropNull, r.1[i])
      {
        if j == 0 {
          assert r.1[i] in q1;
        } else {
          assert reqs[1..][j - 1] == reqs[j];
        }
      }
    }
  }

  /** Cancellation ends only active moves some request matches, and ends every one of them. */
  lemma {:induction false} CancelAllEndsMatching<T>(active: seq<Option<T>>, queued: seq<Option<T>>, reqs: seq<CancelRequest>,
                                                    hasTag: (T, CancelRequest) -> bool, dropNull: bool)
    ensures var r := CancelAll(active, queued, reqs, hasTag, dropNull);
      && (forall i :: 0 <= i < |r.2| ==> exists j :: 0 <= j < |reqs| && hasTag(r.2[i], reqs[j]))
      && (forall i, j :: 0 <= i < |active| && 0 <= j < |reqs| && Cancels(hasTag, reqs[j], active[i]) ==> active[i].value in r.2)
    decreases |reqs|
  {
    if |reqs| > 0 {
      var req := reqs[0];
      var q1 := Filter(queued, o => !DropsQueued(hasTag, req, dropNull, o));
      var a1 := Filter(active, o => !Cancels(hasTag, req, o));
      var ended := Removed(active, m => hasTag(m, req));
      CancelAllEndsMatching(a1, q1, reqs[1..], hasTag, dropNull);
      var r := CancelAll(active, queued, reqs, hasTag, dropNull);
      var rest := CancelAll(a1, q1, reqs[1..], hasTag, dropNull);
      assert r.2 == ended + rest.2;
      forall i | 0 <= i < |r.2|
        ensures exists j :: 0 <= j < |reqs| && hasTag(r.2[i], reqs[j])
      {
        if i < |ended| {
          assert hasTag(r.2[i], reqs[0]);
        } else {
          assert r.2[i] == rest.2[i - |ended|];
          var j' :| 0 <= j' < |reqs[1..]| && hasTag(r.2[i], reqs[1..][j']);
          assert hasTag(r.2[i], reqs[j' + 1]);
        }
      }
      forall i, j | 0 <= i < |active| && 0 <= j < |reqs| && Cancels(hasTag, reqs[j], active[i])
        ensures active[i].value in r.2
      {
        if Cancels(hasTag, req, active[i]) {
          assert active[i].value in ended;
        } else {
          assert active[i] in a1;
          var k :| 0 <= k < |a1| && a1[k] == active[i];
          assert reqs[1..][j - 1] == reqs[j];
          assert active[i].value in rest.2;
        }
      }
    }
  }

  /** An active slot no request matches survives cancellation. */
  lemma {:induction false} CancelAllKeeps<T>(active: seq<Option<T>>, queued: seq<Option<T>>, reqs: seq<CancelRequest>,
                                             hasTag: (T, CancelRequest) -> bool, dropNull: bool)
    ensures var r := CancelAll(active, queued, reqs, hasTag, dropNull);
      forall i :: 0 <= i < |active| && (forall j :: 0 <= j < |reqs| ==> !Cancels(hasTag, reqs[j], active[i])) ==> active[i] in r.0
    decreases |reqs|
  {
    if |reqs| > 0 {
      var req := reqs[0];
      var q1 := Filter(queued, o => !DropsQueued(hasTag, req, dropNull, o));
      var a1 := Filter(active, o => !Cancels(hasTag, req, o));
      CancelAllKeeps(a1, q1, reqs[1..], hasTag, dropNull);
      var r := CancelAll(active, queued, reqs, hasTag, dropNull);
      assert r.0 == CancelAll(a1, q1, reqs[1..], hasTag, dropNull).0;
      forall i | 0 <= i < |active| && (forall j :: 0 <= j < |reqs| ==> !Cancels(hasTag, reqs[j], active[i]))
        ensures active[i] in r.0
      {
        assert active[i] in a1;
        var k :| 0 <= k < |a1| && a1[k] == active[i];
        forall j | 0 <= j < |reqs[1..]|
          ensures !Cancels(hasTag, reqs[1..][j], a1[k])
        {
          assert reqs[1..][j] == reqs[j + 1];
        }
      }
    }
  }

  /** Queued moves made active, each started at `nowMs`; a null queued move would be dereferenced. */
  function Started(q: seq<Option<LayeredMove>>, nowMs: real): (r: seq<Option<LayeredMove>>)
    requires forall i :: 0 <= i < |q| ==> q[i].Some?
    ensures |r| == |q|
    ensures forall i :: 0 <= i < |q| ==> r[i] == Some(StartMove(q[i].value, nowMs))
  {
    if |q| == 0 then []
    else
      assert forall i :: 1 <= i < |q| ==> q[1..][i - 1] == q[i];
      [Some(StartMove(q[0].value, nowMs))] + Started(q[1..], nowMs)
  }

  /** A carried-over active move: non-null and not finished. */
  predicate StaysActive(nowMs: real, o: Option<LayeredMove>)
  {
    o.Some? && !IsFinished(o.value, nowMs)
  }

  /**
   * The bookkeeping of FlushMoveArrays: cancellations, then finished and
   * null active moves removed, then every queued move appended to the
   * active list and started. Returns the new group, whose residual is not
   * yet updated, and the moves that ended, in the order they ended.
   */
  function FlushMoves(g: Group, nowMs: real, hasTag: (LayeredMove, CancelRequest) -> bool): (r: (Group, seq<LayeredMove>))
    requires forall i :: 0 <= i < |g.queued| ==> g.queued[i].Some?
    ensures var c := CancelAll(g.active, g.queued, g.cancels, hasTag, false);
      && r.0.queued == [] && r.0.cancels == [] && r.0.residual == g.residual
      && |c.1| <= |r.0.active|
      && r.0.active[|r.0.active| - |c.1|..] == Started(c.1, nowMs)
      && (forall i :: 0 <= i < |r.0.active| - |c.1| ==> StaysActive(nowMs, r.0.active[i]) && r.0.active[i] in c.0)
      && (forall i :: 0 <= i < |c.0| && StaysActive(nowMs, c.0[i]) ==> c.0[i] in r.0.active)
      && |c.2| <= |r.1| && r.1[..|c.2|] == c.2
      && (forall i :: |c.2| <= i < |r.1| ==> Some(r.1[i]) in c.0 && IsFinished(r.1[i], nowMs))
  {
    var c := CancelAll(g.active, g.queued, g.cancels, hasTag, false);
    var kept := Filter(c.0, o => StaysActive(nowMs, o));
    var finished := Removed(c.0, m => IsFinished(m, nowMs));
    var started := Started(c.1, nowMs);
    assert (kept + started)[|kept|..] == started;
    assert forall i :: 0 <= i < |kept| ==> (kept + started)[i] == kept[i];
    assert (c.2 + finished)[..|c.2|] == c.2;
    (Group(kept + started, [], g.residual, []), c.2 + finished)
  }

  /** What ending moves hand to the residual velocity. */
  function Endings(ms: seq<LayeredMove>): (r: seq<Ending>)
    ensures |r| == |ms|
    ensures forall i :: 0 <= i < |ms| ==> r[i] == Ending(ms[i].mixMode, ms[i].finish)
  {
    if |ms| == 0 then []
    else
      assert forall i :: 1 <= i < |ms| ==> ms[1..][i - 1] == ms[i];
      [Ending(ms[0].mixMode, ms[0].finish)] + Endings(ms[1..])
  }

  /**
   * FlushMoveArrays with the legacy gathering: the bookkeeping above, with every ended
   * move gathered into the residual by GatherResidualVelocitySettings.
   * None is its check(0): an additive move ending after an overriding one
   * of the same kind, or an OverrideAllExceptVerticalVelocity move ending
   * with finish settings.
   */
  function FlushMoveArrays(g: Group, nowMs: real, hasTag: (LayeredMove, CancelRequest) -> bool): (r: Option<Group>)
    requires forall i :: 0 <= i < |g.queued| ==> g.queued[i].Some?
    ensures var (g1, ended) := FlushMoves(g, nowMs, hasTag);
      && (r.Some? ==> r.value == g1.(residual := ProcessAll(Endings(ended), (g.residual, NO_OVERRIDES)).0))
      && ((forall i :: 0 <= i < |ended| ==> ended[i].mixMode == AdditiveVelocity) ==> r.Some?)
  {
    var (g1, ended) := FlushMoves(g, nowMs, hasTag);
    var s := (g.residual, NO_OVERRIDES);
    GatherAllAgreesUnlessChecked(Endings(ended), s);
    var allAdditive := forall i :: 0 <= i < |ended| ==> ended[i].mixMode == AdditiveVelocity;
    assert allAdditive ==> GatherAllAsWritten(Endings(ended), s).Some? by {
      if allAdditive {
        AdditiveEndingsNeverCheck(Endings(ended), s);
      }
    }
    match GatherAllAsWritten(Endings(ended), s)
    case None => None
    case Some(t) => Some(g1.(residual := t.0))
  }

  /** With nothing to cancel, a flush keeps the unfinished active moves in order and then starts the whole queue, in order. */
  lemma FlushWithoutCancels(g: Group, nowMs: real, hasTag: (LayeredMove, CancelRequest) -> bool)
    requires forall i :: 0 <= i < |g.queued| ==> g.queued[i].Some?
    requires g.cancels == []
    ensures FlushMoves(g, nowMs, hasTag).0.active == Filter(g.active, o => StaysActive(nowMs, o)) + Started(g.queued, nowMs)
  {
  }

  // ---------------------------------------------------------------------
  // Comparison, lookup and reset
  // ---------------------------------------------------------------------

  /** Which slots hold a move. */
  function Validity(s: seq<Option<LayeredMove>>): (r: seq<bool>)
    ensures |r| == |s| && forall i :: 0 <= i < |s| ==> r[i] == s[i].Some?
  {
    if |s| == 0 then []
    else
      assert forall i :: 1 <= i < |s| ==> s[1..][i - 1] == s[i];
      [s[0].Some?] + Validity(s[1..])
  }

  /** operator==: the same counts and a move in the same slots; the moves' state is not compared. */
  function Equal(g: Group, h: Group): (r: bool)
    ensures r <==> Validity(g.active) == Validity(h.active) && Validity(g.queued) == Validity(h.queued)
  {
    && |g.active| == |h.active| && |g.queued| == |h.queued|
    && (forall i :: 0 <= i < |g.active| ==> g.active[i].Some? == h.active[i].Some?)
    && (forall i :: 0 <= i < |g.queued| ==> g.queued[i].Some? == h.queued[i].Some?)
  }

  /** Two groups whose moves differ in every field but sit in the same slots compare equal. */
  lemma EqualIgnoresMoveState(g: Group, active: seq<LayeredMove>, queued: seq<LayeredMove>)
    requires |active| == |g.active| && |queued| == |g.queued|
    requires forall i :: 0 <= i < |g.active| ==> g.active[i].Some?
    requires forall i :: 0 <= i < |g.queued| ==> g.queued[i].Some?
    ensures Equal(g, g.(active := seq(|active|, i requires 0 <= i < |active| => Some(active[i])),
                        queued := seq(|queued|, i requires 0 <= i < |queued| => Some(queued[i]))))
  {
  }

  /** The script struct of each slot; every slot must hold a move. */
  function StructsOf(s: seq<Option<LayeredMove>>): (r: seq<StructType>)
    requires forall i :: 0 <= i < |s| ==> s[i].Some?
    ensures |r| == |s| && forall i :: 0 <= i < |s| ==> r[i] == s[i].value.struct
  {
    if |s| == 0 then []
    else
      assert forall i :: 1 <= i < |s| ==> s[1..][i - 1] == s[i];
      [s[0].value.struct] + StructsOf(s[1..])
  }

  predicate NoNulls(g: Group)
  {
    && (forall i :: 0 <= i < |g.active| ==> g.active[i].Some?)
    && (forall i :: 0 <= i < |g.queued| ==> g.queued[i].Some?)
  }

  /** HasSameContents: the same counts and the same move type in every slot (the slots are dereferenced unchecked). */
  function HasSameContents(g: Group, h: Group): (r: bool)
    requires NoNulls(g) && NoNulls(h)
    ensures r <==> StructsOf(g.active) == StructsOf(h.active) && StructsOf(g.queued) == StructsOf(h.queued)
  {
    && |g.active| == |h.active| && |g.queued| == |h.queued|
    && (forall i :: 0 <= i < |g.active| ==> g.active[i].value.struct == h.active[i].value.struct)
    && (forall i :: 0 <= i < |g.queued| ==> g.queued[i].value.struct == h.queued[i].value.struct)
  }

  /** FindActiveMove / FindQueuedMove: the first non-null move whose type is, or derives from, the requested one. */
  function FindMove(s: seq<Option<LayeredMove>>, requested: string): (r: Option<LayeredMove>)
    ensures r.Some? ==> exists i :: 0 <= i < |s| && s[i] == r && MoverDataCollection.IsA(r.value.struct, requested)
                          && forall j :: 0 <= j < i ==> !(s[j].Some? && MoverDataCollection.IsA(s[j].value.struct, requested))
    ensures r.None? <==> forall i :: 0 <= i < |s| ==> !(s[i].Some? && MoverDataCollection.IsA(s[i].value.struct, requested))
  {
    if |s| == 0 then None
    else if s[0].Some? && MoverDataCollection.IsA(s[0].value.struct, requested) then s[0]
    else
      var r := FindMove(s[1..], requested);
      assert forall i :: 1 <= i < |s| ==> s[1..][i - 1] == s[i];
      r
  }

  /** ResetResidualVelocity. */
  function ResetResidualVelocity(g: Group): (r: Group)
    ensures r.residual == NO_RESIDUAL && r == g.(residual := NO_RESIDUAL)
  {
    g.(residual := NO_RESIDUAL)
  }

  /** Reset: no moves, no requests and no residual velocity: the constructed group again. */
  function Reset(g: Group): (r: Group)
    ensures r == NEW_GROUP
  {
    ResetResidualVelocity(g).(queued := [], active := [], cancels := [])
  }

  // ---------------------------------------------------------------------
  // Copying (operator=)
  // ---------------------------------------------------------------------

  predicate IsMove(o: Option<LayeredMove>)
  {
    o.Some?
  }

  /**
   * CopyLayeredMoveArray: with copy-in-place enabled and equal sizes, each
   * slot is copied into a destination move of the same type or replaced by
   * a clone; the first null source slot abandons that for a full copy,
   * which clones the non-null source slots only.
   */
  function CopyLayeredMoveArray(dest: seq<Option<LayeredMove>>, src: seq<Option<LayeredMove>>, copyInPlaceEnabled: bool)
    : (r: seq<Option<LayeredMove>>)
    ensures r == Filter(src, IsMove)
  {
    var inPlace := copyInPlaceEnabled && |dest| == |src|;
    if inPlace && forall i :: 0 <= i < |src| ==> src[i].Some? then
      var r := seq(|src|, i requires 0 <= i < |src| =>
        if dest[i].Some? && dest[i].value.struct == src[i].value.struct then Some(src[i].value) // copied in place
        else Some(src[i].value));                                                               // replaced by a clone
      assert r == src;
      FilterKeepsAll(src, IsMove);
      r
    else Filter(src, IsMove)
  }

  /**
   * operator=: both move arrays (nulls dropped) and the cancellation
   * requests come from `other`; the residual velocity, its clamping and
   * its apply flag stay those of the group assigned to.
   */
  function Assign(g: Group, other: Group, copyInPlaceEnabled: bool): (r: Group)
    ensures NoNulls(r) && r.residual == g.residual && r.cancels == other.cancels
    ensures forall m :: Some(m) in r.active <==> Some(m) in other.active
    ensures forall m :: Some(m) in r.queued <==> Some(m) in other.queued
    ensures NoNulls(other) ==> r == other.(residual := g.residual)
  {
    FilterKeepsAll(other.active, IsMove);
    FilterKeepsAll(other.queued, IsMove);
    Group(CopyLayeredMoveArray(g.active, other.active, copyInPlaceEnabled),
          CopyLayeredMoveArray(g.queued, other.queued, copyInPlaceEnabled),
          g.residual, other.cancels)
  }
}
