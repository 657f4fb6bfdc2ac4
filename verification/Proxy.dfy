/**
 * The network prediction proxy a game object holds: reads of the
 * simulation and presentation states with their fallbacks, the
 * configuration calls it forwards to the world manager through its bound
 * config function, the archetype dirty count that drives replication, and
 * NetSerialize of the instance ID and archetype.
 */
module Proxy {
  import opened Common
  import opened ServiceFlags
  import opened Bits
  import opened BitStream

  // ---------------------------------------------------------------------
  // State reads and writes
  // ---------------------------------------------------------------------

  /** Which value a read wants: the networked simulation value, or the locally smoothed presentation value. */
  datatype StateRead = Simulation | Presentation

  /** The three state pointers of the proxy's view; an absent one is a null pointer. */
  datatype StateView<T> = StateView(pending: Option<T>, presentation: Option<T>, prevPresentation: Option<T>)

  /** Which of the view's states a write targets. */
  datatype StateSlot = PendingSlot | PresentationSlot | PrevPresentationSlot

  /** ReadSyncState / ReadAuxState: the presentation value when asked for and set, else the pending simulation value. */
  function ReadState<T>(v: StateView<T>, read: StateRead): (r: Option<T>)
    ensures read == Simulation ==> r == v.pending
    ensures read == Presentation ==> r == (if v.presentation.Some? then v.presentation else v.pending)
  {
    if read == Presentation && v.presentation.Some? then v.presentation else v.pending
  }

  /** ReadPrevPresentationSyncState / ReadPrevPresentationAuxState: the previous presentation value if set, else the pending simulation value. */
  function ReadPrevPresentation<T>(v: StateView<T>): (r: Option<T>)
    ensures v.prevPresentation.Some? ==> r == v.prevPresentation
    ensures v.prevPresentation.None? ==> r == v.pending
  {
    if v.prevPresentation.Some? then v.prevPresentation else v.pending
  }

  function SlotValue<T>(v: StateView<T>, slot: StateSlot): Option<T>
  {
    match slot
    case PendingSlot => v.pending
    case PresentationSlot => v.presentation
    case PrevPresentationSlot => v.prevPresentation
  }

  /** The Write*State calls: the write function is applied to the targeted state when it is set; nothing happens otherwise. */
  function WriteState<T>(v: StateView<T>, slot: StateSlot, write: T -> T): (r: (StateView<T>, Option<T>))
    ensures SlotValue(v, slot).None? ==> r == (v, None)
    ensures SlotValue(v, slot).Some? ==> r.1 == Some(write(SlotValue(v, slot).value)) && SlotValue(r.0, slot) == r.1
  {
    match slot
    case PendingSlot =>
      if v.pending.None? then (v, None) else var x := Some(write(v.pending.value)); (v.(pending := x), x)
    case PresentationSlot =>
      if v.presentation.None? then (v, None) else var x := Some(write(v.presentation.value)); (v.(presentation := x), x)
    case PrevPresentationSlot =>
      if v.prevPresentation.None? then (v, None) else var x := Some(write(v.prevPresentation.value)); (v.(prevPresentation := x), x)
  }

  /**
   * Presentation values never feed back into the simulation: writing a
   * presentation state leaves the simulation read alone, and writing the
   * pending state is what a simulation read then sees (and what a
   * presentation read sees while no presentation value is set).
   */
  lemma PresentationNeverFeedsSimulation<T>(v: StateView<T>, slot: StateSlot, write: T -> T)
    ensures slot != PendingSlot ==> ReadState(WriteState(v, slot, write).0, Simulation) == ReadState(v, Simulation)
    ensures slot == PendingSlot && v.pending.Some? ==> ReadState(WriteState(v, slot, write).0, Simulation) == Some(write(v.pending.value))
    ensures slot == PendingSlot && v.presentation.None? ==>
      ReadState(WriteState(v, slot, write).0, Presentation) == ReadState(WriteState(v, slot, write).0, Simulation)
  {
  }

  // ---------------------------------------------------------------------
  // Configuration and the dirty count
  // ---------------------------------------------------------------------

  /** What a call through the config function asks the world manager to do. */
  datatype ConfigAction = NoAction | EndPlayAction | UpdateConfigWithDefault

  /** One call through the config function; `newId` is None for the default-constructed ID (no new ID). */
  datatype ConfigCall = ConfigCall(newId: Option<int>, action: ConfigAction)

  /**
   * The proxy's own fields: the instance ID, the uint8 archetype dirty
   * count, the local config, the archetype (its ticking mode), the cached
   * role and connection, whether Init has bound the config function, and
   * the calls made through it.
   */
  datatype NetProxy<C> = NetProxy(
    id: int,
    dirtyCount: nat,
    config: C,
    tickingMode: nat,
    role: NetRole,
    hasNetConnection: bool,
    bound: bool,
    calls: seq<ConfigCall>)

  predicate ValidProxy<C>(p: NetProxy<C>)
  {
    IsInt32(p.id) && p.dirtyCount < 256 && p.tickingMode < 256
  }

  /** A call through the config function when Init has bound it, and nothing otherwise. */
  function CallIfBound<C>(p: NetProxy<C>, call: ConfigCall): (r: NetProxy<C>)
    ensures r == p.(calls := r.calls)
    ensures r.calls == (if p.bound then p.calls + [call] else p.calls)
  {
    if p.bound then p.(calls := p.calls + [call]) else p
  }

  /** InitForNetworkRole: caches the role, connection and RPC handler, then asks for the default config. */
  function InitForNetworkRole<C>(p: NetProxy<C>, role: NetRole, hasNetConnection: bool): (r: NetProxy<C>)
    ensures r.role == role && r.hasNetConnection == hasNetConnection
    ensures r.id == p.id && r.dirtyCount == p.dirtyCount && r.config == p.config && r.tickingMode == p.tickingMode
    ensures r.calls == (if p.bound then p.calls + [ConfigCall(None, UpdateConfigWithDefault)] else p.calls)
  {
    CallIfBound(p.(role := role, hasNetConnection := hasNetConnection), ConfigCall(None, UpdateConfigWithDefault))
  }

  /** Configure: stores the local config (not networked) and tells the world manager. */
  function Configure<C>(p: NetProxy<C>, config: C): (r: NetProxy<C>)
    ensures r.config == config && r.id == p.id && r.dirtyCount == p.dirtyCount && r.tickingMode == p.tickingMode
    ensures r.calls == (if p.bound then p.calls + [ConfigCall(None, NoAction)] else p.calls)
  {
    CallIfBound(p.(config := config), ConfigCall(None, NoAction))
  }

  /** SetArchetype (authority only): bumps the uint8 dirty count, wrapping at 256, then configures. The archetype argument itself is unused. */
  function SetArchetype<C>(p: NetProxy<C>, config: C): (r: NetProxy<C>)
    requires ValidProxy(p)
    ensures ValidProxy(r)
    ensures r.dirtyCount == (p.dirtyCount + 1) % 256
    ensures r.id == p.id && r.config == config && r.tickingMode == p.tickingMode
    ensures r.calls == (if p.bound then p.calls + [ConfigCall(None, NoAction)] else p.calls)
  {
    Configure(p.(dirtyCount := (p.dirtyCount + 1) % 256), config)
  }

  /** EndPlay: unregisters through the config function. */
  function EndPlay<C>(p: NetProxy<C>): (r: NetProxy<C>)
    ensures r.id == p.id && r.dirtyCount == p.dirtyCount && r.config == p.config
    ensures r.calls == (if p.bound then p.calls + [ConfigCall(None, EndPlayAction)] else p.calls)
  {
    CallIfBound(p, ConfigCall(None, EndPlayAction))
  }

  /** Identical, which replication uses to decide whether the proxy changed: the same ID and the same dirty count. */
  predicate Identical<C>(p: NetProxy<C>, q: NetProxy<C>)
  {
    p.id == q.id && p.dirtyCount == q.dirtyCount
  }

  /**
   * Only SetArchetype makes the proxy look changed to replication: it is
   * never Identical to the proxy before it, while Configure, InitForNetworkRole
   * and EndPlay always are.
   */
  lemma OnlySetArchetypeDirties<C>(p: NetProxy<C>, config: C, role: NetRole, hasNetConnection: bool)
    requires ValidProxy(p)
    ensures !Identical(SetArchetype(p, config), p)
    ensures Identical(Configure(p, config), p)
    ensures Identical(InitForNetworkRole(p, role, hasNetConnection), p)
    ensures Identical(EndPlay(p), p)
  {
  }

  /** n SetArchetype calls in a row. */
  function SetArchetypeTimes<C>(p: NetProxy<C>, config: C, n: nat): (r: NetProxy<C>)
    requires ValidProxy(p)
    ensures ValidProxy(r) && r.id == p.id
  {
    if n == 0 then p else SetArchetype(SetArchetypeTimes(p, config, n - 1), config)
  }

  /** The dirty count after n archetype changes is the old count plus n, wrapped to a uint8. */
  lemma {:induction false} SetArchetypeTimesCount<C>(p: NetProxy<C>, config: C, n: nat)
    requires ValidProxy(p)
    ensures SetArchetypeTimes(p, config, n).dirtyCount == (p.dirtyCount + n) % 256
  {
    if n > 0 {
      SetArchetypeTimesCount(p, config, n - 1);
      ByteIncrement(p.dirtyCount + n - 1);
    }
  }

  lemma ByteIncrement(a: nat)
    ensures (a % 256 + 1) % 256 == (a + 1) % 256
  {
    var q := a / 256;
    assert a == 256 * q + a % 256;
    if a % 256 == 255 {
      assert a + 1 == 256 * (q + 1);
    } else {
      assert a + 1 == 256 * q + (a % 256 + 1);
    }
  }

  /**
   * Because the count is a uint8, 256 archetype changes between two
   * replication checks look like none: the proxy is Identical again.
   */
  lemma DirtyCountWrapsAfter256<C>(p: NetProxy<C>, config: C)
    requires ValidProxy(p)
    ensures Identical(SetArchetypeTimes(p, config, 256), p)
    ensures forall n: nat :: 0 < n < 256 ==> !Identical(SetArchetypeTimes(p, config, n), p)
  {
    SetArchetypeTimesCount(p, config, 256);
    assert (p.dirtyCount + 256) % 256 == p.dirtyCount;
    forall n: nat | 0 < n < 256
      ensures !Identical(SetArchetypeTimes(p, config, n), p)
    {
      SetArchetypeTimesCount(p, config, n);
      CountChangesBelow256(p.dirtyCount, n);
    }
  }

  lemma CountChangesBelow256(d: nat, n: nat)
    requires d < 256 && 0 < n < 256
    ensures (d + n) % 256 != d
  {
    if d + n < 256 {
      assert (d + n) % 256 == d + n;
    } else {
      assert (d + n) % 256 == d + n - 256;
    }
  }

  // ---------------------------------------------------------------------
  // NetSerialize
  // ---------------------------------------------------------------------

  /** NetSerialize on save: the ID's uint32 bit pattern, packed, then the archetype's ticking mode as a byte. */
  function Save<C>(p: NetProxy<C>): (s: Stream)
    requires ValidProxy(p)
  {
    WritePacked(Int32ToU32(p.id)) + ToBits(p.tickingMode, 8)
  }

  /** NetSerialize on load, as far as the archive: the packed ID, truncated to uint32, and the ticking mode byte; None when the stream runs out. */
  function Decode(s: Stream): (r: Option<(nat, nat, Stream)>)
    ensures r.Some? ==> r.value.0 < U32_LIMIT && r.value.1 < 256
  {
    match ReadPacked(s)
    case None => None
    case Some(p) =>
      match ReadRaw(p.1, 8)
      case None => None
      case Some(m) =>
        Pow2Table();
        Some((p.0 % U32_LIMIT, FromBits(m.0), m.1))
  }

  /** What a saved proxy decodes to: its own ID pattern and ticking mode. */
  lemma DecodeInvertsSave<C>(p: NetProxy<C>, tail: Stream)
    requires ValidProxy(p)
    ensures Decode(Save(p) + tail) == Some((Int32ToU32(p.id), p.tickingMode, tail))
  {
    var raw := Int32ToU32(p.id);
    var bits := ToBits(p.tickingMode, 8);
    assert Save(p) + tail == WritePacked(raw) + (bits + tail);
    ReadWritePacked(raw, bits + tail);
    assert ReadRaw(bits + tail, 8) == Some((bits, tail)) by {
      assert (bits + tail)[..8] == bits && (bits + tail)[8..] == tail;
    }
    Pow2Table();
    FromBitsOfToBits(p.tickingMode, 8);
    assert raw % U32_LIMIT == raw;
  }

  /**
   * The loaded ID and archetype applied to the proxy without a bound check: a new ID
   * goes through the config function once Init has bound it, and is
   * assigned directly before; the same ID means an archetype change and
   * calls the config function whether or not it is bound. None stands for
   * that call of an unbound function.
   */
  function LoadAsWritten<C>(p: NetProxy<C>, raw: nat, tickingMode: nat): (r: Option<NetProxy<C>>)
    requires ValidProxy(p) && raw < U32_LIMIT && tickingMode < 256
    ensures r.None? <==> Int32ToU32(p.id) == raw && !p.bound
    ensures r.Some? ==> r.value == Load(p, raw, tickingMode)
  {
    var p1 := p.(tickingMode := tickingMode);
    if Int32ToU32(p.id) != raw then Some(Load(p, raw, tickingMode))
    else if p.bound then Some(p1.(calls := p.calls + [ConfigCall(None, UpdateConfigWithDefault)]))
    else None
  }

  /**
   * An uninitialised proxy that has already taken its ID from an earlier
   * load (ID 5 here) and then loads the same ID again, as it does after
   * the server changes the archetype, calls the unbound config function.
   */
  lemma AsWrittenCallsUnboundConfig()
    ensures var p := NetProxy(5, 0, 0, 0, RoleNone, false, false, []);
      LoadAsWritten(p, 5, 1).None?
  {
  }

  /** The loaded ID and archetype applied to the proxy, with the same-ID call guarded like the new-ID one. */
  function Load<C>(p: NetProxy<C>, raw: nat, tickingMode: nat): (r: NetProxy<C>)
    requires ValidProxy(p) && raw < U32_LIMIT && tickingMode < 256
    ensures ValidProxy(r)
    ensures r.tickingMode == tickingMode && r.dirtyCount == p.dirtyCount && r.config == p.config && r.bound == p.bound
  {
    var p1 := p.(tickingMode := tickingMode);
    if Int32ToU32(p.id) != raw then
      if p.bound then p1.(calls := p.calls + [ConfigCall(Some(U32ToInt32(raw)), UpdateConfigWithDefault)])
      else p1.(id := U32ToInt32(raw))
    else CallIfBound(p1, ConfigCall(None, UpdateConfigWithDefault))
  }

  /**
   * Replicating a proxy: what the server saves, the client decodes and
   * loads into its own proxy. An uninitialised client takes the server's
   * ID; an initialised one with another ID asks the world manager to remap
   * it to the server's; one with the same ID only refreshes its config.
   * The archetype always arrives, and the client never calls an unbound
   * config function.
   */
  lemma ReplicationDeliversId<C>(server: NetProxy<C>, client: NetProxy<C>, tail: Stream)
    requires ValidProxy(server) && ValidProxy(client)
    ensures var d := Decode(Save(server) + tail);
      d.Some? &&
      var r := Load(client, d.value.0, d.value.1);
      r.tickingMode == server.tickingMode &&
      (!client.bound ==> r.id == server.id && r.calls == client.calls) &&
      (client.bound && client.id != server.id ==>
        r.id == client.id && r.calls == client.calls + [ConfigCall(Some(server.id), UpdateConfigWithDefault)]) &&
      (client.bound && client.id == server.id ==>
        r.id == client.id && r.calls == client.calls + [ConfigCall(None, UpdateConfigWithDefault)])
  {
    DecodeInvertsSave(server, tail);
    Int32RoundTrips(server.id, 0);
    Int32RoundTrips(client.id, 0);
  }

  // ---------------------------------------------------------------------
  // Interpolation time
  // ---------------------------------------------------------------------

  /**
   * GetFixedInterpolationTime: the view's latest interpolation time when
   * the view has an interpolation time, else the world manager's fixed
   * interpolation time when there is a world manager, else 0.
   */
  function GetFixedInterpolationTime(viewHasInterpolation: bool, latestInterpTimeMS: real, worldManagerTimeMS: Option<real>): (r: real)
    ensures viewHasInterpolation ==> r == latestInterpTimeMS
    ensures !viewHasInterpolation && worldManagerTimeMS.Some? ==> r == worldManagerTimeMS.value
    ensures !viewHasInterpolation && worldManagerTimeMS.None? ==> r == 0.0
  {
    if viewHasInterpolation then latestInterpTimeMS
    else if worldManagerTimeMS.Some? then worldManagerTimeMS.value
    else 0.0
  }
}
