/**
 * The world manager's lag-compensation registry: the list of registered
 * rewindable components, the pending additions and removals collected
 * while the registration lock is held, the lock counter, and the history
 * size each component is initialised with. Also the loops of
 * RewindActors and UnwindActors, with each component's own work (reading
 * its history, moving its actor) abstracted into a hook that may in turn
 * register or unregister components.
 */
module LagCompRegistration {
  import opened Common

  // ---------------------------------------------------------------------
  // History size
  // ---------------------------------------------------------------------

  /** The network prediction settings that size a component's history. */
  datatype LagCompSettings = LagCompSettings(
    fixedTickFrameRate: real,
    maxRewindTimeMS: int,
    interpolationBufferedMS: int,
    desiredBufferedInputCount: int,
    maxBufferedRewindHistoryTimeMS: int)

  /** The project defaults: 62.5 Hz, 200 ms rewind, 100 ms interpolation, 4 buffered inputs, 1000 ms history. */
  const DEFAULT_SETTINGS: LagCompSettings := LagCompSettings(62.5, 200, 100, 4, 1000)

  /** FMath::Floor((1 / FixedTickFrameRate) * 1000). */
  function TickTimeMS(s: LagCompSettings): (t: int)
    requires s.fixedTickFrameRate != 0.0
    ensures s.fixedTickFrameRate > 0.0 ==> t as real <= 1000.0 / s.fixedTickFrameRate < t as real + 1.0
  {
    ((1.0 / s.fixedTickFrameRate) * 1000.0).Floor
  }

  /**
   * The MaxSize passed to InitializeHistory: the supported rewind time,
   * the interpolation buffer, the desired buffered inputs and ten more
   * ticks for safety, at least the buffered-history time, in ticks.
   */
  function MaxHistorySize(s: LagCompSettings): (n: int)
    requires s.fixedTickFrameRate != 0.0 && TickTimeMS(s) != 0
  {
    var tick := TickTimeMS(s);
    var actual := s.maxRewindTimeMS + s.interpolationBufferedMS + s.desiredBufferedInputCount * tick + tick * 10;
    TruncDiv(Max(actual, s.maxBufferedRewindHistoryTimeMS), tick)
  }

  /**
   * With a positive tick, the history covers the buffered-history time
   * and the whole supported rewind window, each to within one tick.
   */
  lemma HistoryCoversRewind(s: LagCompSettings)
    requires s.fixedTickFrameRate > 0.0 && TickTimeMS(s) > 0
    requires s.maxBufferedRewindHistoryTimeMS >= 0
    ensures var tick := TickTimeMS(s); var n := MaxHistorySize(s);
      n >= 0 &&
      n * tick > s.maxBufferedRewindHistoryTimeMS - tick &&
      n * tick > s.maxRewindTimeMS + s.interpolationBufferedMS + s.desiredBufferedInputCount * tick + tick * 9
  {
    var tick := TickTimeMS(s);
    var actual := s.maxRewindTimeMS + s.interpolationBufferedMS + s.desiredBufferedInputCount * tick + tick * 10;
    var m := Max(actual, s.maxBufferedRewindHistoryTimeMS);
    assert m >= 0;
    var n := m / tick;
    assert m == n * tick + m % tick;
  }

  /** With the default settings a tick is 16 ms and the history holds 62 entries. */
  lemma DefaultHistorySize()
    ensures TickTimeMS(DEFAULT_SETTINGS) == 16
    ensures MaxHistorySize(DEFAULT_SETTINGS) == 62
  {
    assert (1.0 / 62.5) * 1000.0 == 16.0;
  }

  // ---------------------------------------------------------------------
  // Registration
  // ---------------------------------------------------------------------

  /**
   * RegisteredLagCompComponents, PendingAdd/PendingRemoveLagCompComponents,
   * LagCompRegistrationLock, and the MaxSize each registered component's
   * history was initialised with. A null component is None.
   */
  datatype LagCompRegistry<C(==,!new)> = LagCompRegistry(
    registered: seq<C>,
    pendingAdd: seq<C>,
    pendingRemove: seq<Option<C>>,
    lock: nat,
    historySize: map<C, int>)

  predicate NoDuplicates<T(==)>(s: seq<T>)
  {
    forall i, j :: 0 <= i < j < |s| ==> s[i] != s[j]
  }

  /** Each component is registered once and has had its history initialised. */
  predicate ValidRegistry<C(==,!new)>(r: LagCompRegistry<C>)
  {
    NoDuplicates(r.registered) && forall c :: c in r.registered ==> c in r.historySize
  }

  const EMPTY_REGISTRY: LagCompRegistry<int> := LagCompRegistry([], [], [], 0, map[])

  /**
   * RegisterRewindableComponent: a null component is ignored; under the
   * lock the component is queued once; otherwise a component not yet
   * registered has its history initialised and is appended.
   */
  function Register<C(==,!new)>(r: LagCompRegistry<C>, comp: Option<C>, maxSize: int): (r': LagCompRegistry<C>)
    ensures r'.lock == r.lock && r'.pendingRemove == r.pendingRemove
    ensures comp.None? ==> r' == r
    ensures comp.Some? && r.lock > 0 ==>
      r'.registered == r.registered && r'.historySize == r.historySize && r'.pendingAdd == AddUnique(r.pendingAdd, comp.value)
    ensures comp.Some? && r.lock == 0 ==> r'.pendingAdd == r.pendingAdd && comp.value in r'.registered
    ensures comp.Some? && r.lock == 0 && comp.value in r.registered ==> r' == r
    ensures comp.Some? && r.lock == 0 && comp.value !in r.registered ==>
      r'.registered == r.registered + [comp.value] && r'.historySize == r.historySize[comp.value := maxSize]
  {
    if comp.None? then r
    else if r.lock > 0 then r.(pendingAdd := AddUnique(r.pendingAdd, comp.value))
    else if comp.value in r.registered then r
    else r.(registered := r.registered + [comp.value], historySize := r.historySize[comp.value := maxSize])
  }

  /**
   * UnregisterRewindableComponent: under the lock the request (even for
   * null) is queued once; otherwise every occurrence of the component
   * leaves the registered list.
   */
  function Unregister<C(==,!new)>(r: LagCompRegistry<C>, comp: Option<C>): (r': LagCompRegistry<C>)
    ensures r'.lock == r.lock && r'.pendingAdd == r.pendingAdd && r'.historySize == r.historySize
    ensures r.lock > 0 ==> r'.registered == r.registered && r'.pendingRemove == AddUnique(r.pendingRemove, comp)
    ensures r.lock == 0 ==> r'.pendingRemove == r.pendingRemove
    ensures r.lock == 0 ==> forall c :: c in r'.registered <==> c in r.registered && Some(c) != comp
  {
    if r.lock > 0 then r.(pendingRemove := AddUnique(r.pendingRemove, comp))
    else if comp.None? then r
    else r.(registered := RemoveAll(r.registered, comp.value))
  }

  /** Removing elements keeps a list free of duplicates. */
  lemma {:induction false} RemoveAllNoDuplicates<T>(s: seq<T>, x: T)
    requires NoDuplicates(s)
    ensures NoDuplicates(RemoveAll(s, x))
  {
    if |s| > 0 {
      RemoveAllNoDuplicates(s[1..], x);
    }
  }

  /** Registering and unregistering keep every component registered once, with its history. */
  lemma RegistrationKeepsValid<C(!new)>(r: LagCompRegistry<C>, comp: Option<C>, maxSize: int)
    requires ValidRegistry(r)
    ensures ValidRegistry(Register(r, comp, maxSize))
    ensures ValidRegistry(Unregister(r, comp))
  {
    if r.lock == 0 && comp.Some? {
      RemoveAllNoDuplicates(r.registered, comp.value);
    }
  }

  lemma RegistrationKeepsValidWhen<C(!new)>(r: LagCompRegistry<C>, comp: Option<C>, maxSize: int)
    ensures ValidRegistry(r) ==> ValidRegistry(Register(r, comp, maxSize)) && ValidRegistry(Unregister(r, comp))
  {
    if ValidRegistry(r) {
      RegistrationKeepsValid(r, comp, maxSize);
    }
  }

  /** FLagCompensationRegistrationLock's constructor. */
  function Lock<C(==,!new)>(r: LagCompRegistry<C>): (r': LagCompRegistry<C>)
    ensures r'.lock == r.lock + 1 && r'.lock > 0
    ensures r'.registered == r.registered && r'.pendingAdd == r.pendingAdd
    ensures r'.pendingRemove == r.pendingRemove && r'.historySize == r.historySize
  {
    r.(lock := r.lock + 1)
  }

  /** Every queued removal in order, each acting at once (the lock is already released). */
  function ApplyRemoves<C(==,!new)>(r: LagCompRegistry<C>, removes: seq<Option<C>>): (r': LagCompRegistry<C>)
    requires r.lock == 0
    ensures r'.lock == 0 && r'.pendingAdd == r.pendingAdd && r'.pendingRemove == r.pendingRemove
    ensures r'.historySize == r.historySize
    ensures forall c :: c in r'.registered <==> c in r.registered && Some(c) !in removes
    ensures ValidRegistry(r) ==> ValidRegistry(r')
    decreases |removes|
  {
    if |removes| == 0 then r
    else
      var r1 := Unregister(r, removes[0]);
      RegistrationKeepsValidWhen(r, removes[0], 0);
      var r' := ApplyRemoves(r1, removes[1..]);
      assert forall c :: Some(c) in removes <==> Some(c) == removes[0] || Some(c) in removes[1..];
      r'
  }

  /** Every queued addition in order, each registering at once. */
  function ApplyAdds<C(==,!new)>(r: LagCompRegistry<C>, adds: seq<C>, maxSize: int): (r': LagCompRegistry<C>)
    requires r.lock == 0
    ensures r'.lock == 0 && r'.pendingAdd == r.pendingAdd && r'.pendingRemove == r.pendingRemove
    ensures forall c :: c in r'.registered <==> c in r.registered || c in adds
    ensures forall c :: c in r.registered && c in r.historySize ==> c in r'.historySize && r'.historySize[c] == r.historySize[c]
    ensures ValidRegistry(r) ==> ValidRegistry(r')
    decreases |adds|
  {
    if |adds| == 0 then r
    else
      var r1 := Register(r, Some(adds[0]), maxSize);
      RegistrationKeepsValidWhen(r, Some(adds[0]), maxSize);
      var r' := ApplyAdds(r1, adds[1..], maxSize);
      assert forall c :: c in adds <==> c == adds[0] || c in adds[1..];
      r'
  }

  /**
   * FLagCompensationRegistrationLock's destructor: the counter drops; the
   * outermost release unregisters every pending removal, then registers
   * every pending addition, and empties both lists.
   */
  function Unlock<C(==,!new)>(r: LagCompRegistry<C>, maxSize: int): (r': LagCompRegistry<C>)
    requires r.lock > 0
    ensures r'.lock == r.lock - 1
    ensures r.lock > 1 ==> r' == r.(lock := r.lock - 1)
    ensures r.lock == 1 ==> r'.pendingAdd == [] && r'.pendingRemove == []
    ensures r.lock == 1 ==> forall c :: c in r'.registered <==>
      c in r.pendingAdd || (c in r.registered && Some(c) !in r.pendingRemove)
    ensures ValidRegistry(r) ==> ValidRegistry(r')
  {
    var r0 := r.(lock := r.lock - 1);
    if r0.lock > 0 then r0
    else
      var removed := ApplyRemoves(r0, r0.pendingRemove).(pendingRemove := []);
      ApplyAdds(removed, removed.pendingAdd, maxSize).(pendingAdd := [])
  }

  /** Leaving a lock that was taken with nothing pending restores the registry. */
  lemma LockUnlockRoundTrip<C(!new)>(r: LagCompRegistry<C>, maxSize: int)
    requires r.pendingAdd == [] && r.pendingRemove == []
    ensures Unlock(Lock(r), maxSize).registered == r.registered || r.lock == 0
    ensures Unlock(Lock(r), maxSize).lock == r.lock
    ensures r.lock > 0 ==> Unlock(Lock(r), maxSize) == r
  {
  }

  // ---------------------------------------------------------------------
  // Rewind and unwind loops
  // ---------------------------------------------------------------------

  /** A registration call a component's rewind or unwind work may make. */
  datatype LagRequest<C> = RegisterReq(comp: C) | UnregisterReq(comp: C)

  /** The calls one component's work makes, in order. */
  function ApplyRequests<C(==,!new)>(r: LagCompRegistry<C>, reqs: seq<LagRequest<C>>, maxSize: int): (r': LagCompRegistry<C>)
    ensures r'.lock == r.lock
    ensures r.lock > 0 ==> r'.registered == r.registered && r'.historySize == r.historySize
    ensures r.lock > 0 ==> forall c :: c in r'.pendingAdd <==> c in r.pendingAdd || RegisterReq(c) in reqs
    ensures r.lock > 0 ==> forall c :: Some(c) in r'.pendingRemove <==> Some(c) in r.pendingRemove || UnregisterReq(c) in reqs
    ensures r.lock > 0 ==> (None in r'.pendingRemove <==> None in r.pendingRemove)
    ensures ValidRegistry(r) ==> ValidRegistry(r')
    decreases |reqs|
  {
    if |reqs| == 0 then r
    else
      var r1 := match reqs[0]
        case RegisterReq(c) => Register(r, Some(c), maxSize)
        case UnregisterReq(c) => Unregister(r, Some(c));
      RegistrationKeepsValidWhen(r, Some(reqs[0].comp), maxSize);
      assert forall q :: q in reqs <==> q == reqs[0] || q in reqs[1..];
      ApplyRequests(r1, reqs[1..], maxSize)
  }

  /**
   * The body of the component loop for positions i .. n-1, reading each
   * position from the list as it is when the loop reaches it and
   * stopping at its end. The hook is a component's own work: whether it
   * moved its actor, and the registration calls that work made. Returns
   * whether any component moved, the registry, and the components visited.
   */
  function VisitFrom<C(==,!new)>(r: LagCompRegistry<C>, hook: C -> (bool, seq<LagRequest<C>>), i: nat, n: nat, maxSize: int): (res: (bool, LagCompRegistry<C>, seq<C>))
    ensures res.1.lock == r.lock
    ensures |res.2| <= n - i || (i >= n && res.2 == [])
    ensures ValidRegistry(r) ==> ValidRegistry(res.1)
    decreases n - i
  {
    if i >= n || i >= |r.registered| then (false, r, [])
    else
      var comp := r.registered[i];
      var work := hook(comp);
      var r1 := ApplyRequests(r, work.1, maxSize);
      var rest := VisitFrom(r1, hook, i + 1, n, maxSize);
      (work.0 || rest.0, rest.1, [comp] + rest.2)
  }

  /** While the lock is held the list does not move under the loop: it visits exactly the registered components from i on. */
  lemma {:induction false} LockedVisitSeesList<C(!new)>(r: LagCompRegistry<C>, hook: C -> (bool, seq<LagRequest<C>>), i: nat, maxSize: int)
    requires r.lock > 0 && i <= |r.registered|
    ensures var res := VisitFrom(r, hook, i, |r.registered|, maxSize);
      res.2 == r.registered[i..] && res.1.registered == r.registered && res.1.historySize == r.historySize
    decreases |r.registered| - i
  {
    if i < |r.registered| {
      var r1 := ApplyRequests(r, hook(r.registered[i]).1, maxSize);
      LockedVisitSeesList(r1, hook, i + 1, maxSize);
      assert r.registered[i..] == [r.registered[i]] + r.registered[i + 1..];
    }
  }

  /** Every registration call the visited components' work made. */
  function RequestsOf<C>(hook: C -> (bool, seq<LagRequest<C>>), visited: seq<C>): (reqs: seq<LagRequest<C>>)
    ensures |visited| == 0 ==> reqs == []
  {
    if |visited| == 0 then [] else hook(visited[0]).1 + RequestsOf(hook, visited[1..])
  }

  /** Under the lock, the loop only queues: the pending lists gain exactly the calls the components made. */
  lemma {:induction false} LockedVisitQueues<C(!new)>(r: LagCompRegistry<C>, hook: C -> (bool, seq<LagRequest<C>>), i: nat, maxSize: int)
    requires r.lock > 0 && i <= |r.registered|
    ensures var res := VisitFrom(r, hook, i, |r.registered|, maxSize); var reqs := RequestsOf(hook, r.registered[i..]);
      (forall c :: c in res.1.pendingAdd <==> c in r.pendingAdd || RegisterReq(c) in reqs) &&
      (forall c :: Some(c) in res.1.pendingRemove <==> Some(c) in r.pendingRemove || UnregisterReq(c) in reqs) &&
      (None in res.1.pendingRemove <==> None in r.pendingRemove)
    decreases |r.registered| - i
  {
    if i < |r.registered| {
      var work := hook(r.registered[i]);
      var r1 := ApplyRequests(r, work.1, maxSize);
      LockedVisitQueues(r1, hook, i + 1, maxSize);
      assert r.registered[i..] == [r.registered[i]] + r.registered[i + 1..];
      assert r.registered[i..][1..] == r1.registered[i + 1..];
      var reqs := RequestsOf(hook, r.registered[i..]);
      assert reqs == work.1 + RequestsOf(hook, r1.registered[i + 1..]);
      assert forall q :: q in reqs <==> q in work.1 || q in RequestsOf(hook, r1.registered[i + 1..]);
    }
  }

  /**
   * The component loop of RewindActors and UnwindActors with a temporary lock:
   * `FLagCompensationRegistrationLock(this);` constructs a temporary that
   * is destroyed at the end of that statement, so the lock is taken and
   * released before the loop, and the loop runs with the registry
   * unlocked. The range-for walks as many positions as the list had.
   */
  function ComponentLoopAsWritten<C(==,!new)>(r: LagCompRegistry<C>, hook: C -> (bool, seq<LagRequest<C>>), maxSize: int): (res: (bool, LagCompRegistry<C>, seq<C>))
    ensures res.1.lock == r.lock
    ensures ValidRegistry(r) ==> ValidRegistry(res.1)
  {
    var r1 := Unlock(Lock(r), maxSize);
    VisitFrom(r1, hook, 0, |r1.registered|, maxSize)
  }

  /**
   * The component loop with the lock held for the whole loop, as the lock
   * type is meant to be used: every registered component is visited, and
   * the calls their work made take effect when the lock is left.
   */
  function ComponentLoop<C(==,!new)>(r: LagCompRegistry<C>, hook: C -> (bool, seq<LagRequest<C>>), maxSize: int): (res: (bool, LagCompRegistry<C>, seq<C>))
    ensures res.1.lock == r.lock
    ensures res.2 == r.registered
    ensures ValidRegistry(r) ==> ValidRegistry(res.1)
  {
    var locked := Lock(r);
    var inner := VisitFrom(locked, hook, 0, |locked.registered|, maxSize);
    LockedVisitSeesList(locked, hook, 0, maxSize);
    (inner.0, Unlock(inner.1, maxSize), inner.2)
  }

  /**
   * Leaving the outermost lock after the loop: a component is registered
   * afterwards exactly when some component's work registered it (or it
   * was already queued), or it was registered and no work unregistered it.
   */
  lemma ComponentLoopAppliesRequests<C(!new)>(r: LagCompRegistry<C>, hook: C -> (bool, seq<LagRequest<C>>), maxSize: int)
    requires r.lock == 0 && r.pendingAdd == [] && r.pendingRemove == []
    ensures var res := ComponentLoop(r, hook, maxSize); var reqs := RequestsOf(hook, r.registered);
      res.1.pendingAdd == [] && res.1.pendingRemove == [] &&
      forall c :: c in res.1.registered <==> RegisterReq(c) in reqs || (c in r.registered && UnregisterReq(c) !in reqs)
  {
    var locked := Lock(r);
    LockedVisitSeesList(locked, hook, 0, maxSize);
    LockedVisitQueues(locked, hook, 0, maxSize);
    assert r.registered[0..] == r.registered;
  }

  /**
   * The loop under a temporary lock can skip a registered component: if the first
   * component's work unregisters it, the second moves into position 0
   * and the loop's next position is past the end. With the lock held,
   * both are visited and the removal happens afterwards.
   */
  lemma AsWrittenLoopSkipsComponent()
    ensures var r := LagCompRegistry([1, 2], [], [], 0, map[1 := 62, 2 := 62]);
      var hook := (c: int) => (true, if c == 1 then [UnregisterReq(1)] else []);
      ComponentLoopAsWritten(r, hook, 62).2 == [1] &&
      ComponentLoop(r, hook, 62).2 == [1, 2] &&
      ComponentLoop(r, hook, 62).1.registered == [2]
  {
    var r := LagCompRegistry([1, 2], [], [], 0, map[1 := 62, 2 := 62]);
    var hook := (c: int) => (true, if c == 1 then [UnregisterReq(1)] else []);
    var r1 := Unlock(Lock(r), 62);
    assert r1 == r;
    var a := ApplyRequests(r1, [UnregisterReq(1)], 62);
    assert RemoveAll([1, 2], 1) == [2];
    assert a.registered == [2];
    assert VisitFrom(a, hook, 1, 2, 62).2 == [];
    var locked := Lock(r);
    var b := ApplyRequests(locked, [UnregisterReq(1)], 62);
    assert b.pendingRemove == [Some(1)];
    var c := ApplyRequests(b, [], 62);
    assert VisitFrom(c, hook, 2, 2, 62) == (false, c, []);
    var inner := VisitFrom(locked, hook, 0, 2, 62);
    assert inner.1 == c;
    assert Unlock(c, 62).registered == [2];
  }

  /**
   * RewindActors: nothing happens without a requesting actor, in a
   * standalone game, or with no registered component; otherwise the
   * component loop runs. The result says whether any actor was moved.
   */
  function RewindActors<C(==,!new)>(r: LagCompRegistry<C>, hasRequester: bool, standalone: bool, hook: C -> (bool, seq<LagRequest<C>>), maxSize: int, lockHeld: bool): (res: (bool, LagCompRegistry<C>))
    ensures !hasRequester || standalone || |r.registered| == 0 ==> res == (false, r)
    ensures res.1.lock == r.lock
  {
    if !hasRequester || standalone || |r.registered| == 0 then (false, r)
    else
      var loop := if lockHeld then ComponentLoop(r, hook, maxSize) else ComponentLoopAsWritten(r, hook, maxSize);
      (loop.0, loop.1)
  }

  /** UnwindActors: no registered component means nothing to unwind; otherwise the component loop runs. */
  function UnwindActors<C(==,!new)>(r: LagCompRegistry<C>, hook: C -> (bool, seq<LagRequest<C>>), maxSize: int, lockHeld: bool): (res: (bool, LagCompRegistry<C>))
    ensures |r.registered| == 0 ==> res == (false, r)
    ensures res.1.lock == r.lock
  {
    if |r.registered| == 0 then (false, r)
    else
      var loop := if lockHeld then ComponentLoop(r, hook, maxSize) else ComponentLoopAsWritten(r, hook, maxSize);
      (loop.0, loop.1)
  }
}
