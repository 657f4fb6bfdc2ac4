# JoltNPP core bookkeeping, in Dafny

JoltNPP joins the Jolt physics engine to Unreal Engine's network prediction. It is made of three modules, and this project models the discrete bookkeeping of each. Each bookkeeping core becomes immutable datatypes and pure functions. The properties the code relies on are then proved about them.

- **JoltBridge**:
  - the per-world snapshot history that keys physics snapshots by frame (`SnapshotHistory`);
  - the collision-mask tables built from channel responses (`CollisionMasks`);
  - the layer filters and the snapshot allow list (`LayerFilters`);
  - unit and coordinate conversions (`Conversions`);
  - shape descriptors and the shape cache (`ShapeDescriptor`, `ShapeCache`);
  - body creation settings and the body id counters (`BodySettings`).
- **JoltNetworkPrediction**:
  - the world manager's fixed and variable ticks, rollback and reconcile (`WorldManager`, `TickState`);
  - the delta-compressed replication streams (`BitStream`, `Serialization`, `Replicators`, `ReplicationProxy`);
  - server input buffering and the player controller's input window and time dilation (`ServerInput`, `PlayerController`, `InputService`);
  - service flags, selection and the service registry (`ServiceFlags`, `ServiceSelection`, `ServiceRegistry`);
  - deferred instance registration (`InstanceLifecycle`);
  - lag-compensation registration and history (`LagCompRegistration`, `LagCompHistory`);
  - the rollback and physics-tick services (`RollbackService`, `PhysicsTick`);
  - the driver and the prediction proxy (`ModelDriver`, `Proxy`);
  - the cue traits (`CueTraits`).
  - `FrameBuffer` is the modulo ring every frame buffer is modelled as.
- **JoltMover**:
  - the rollback blackboard (`RollbackBlackboard`);
  - scheduled instant effects (`ScheduledEffects`);
  - the movement-mode state machine (`MovementModeStateMachine`);
  - the data collection and its wire form (`MoverDataCollection`);
  - the movement mixer and residual velocity (`MovementMixer`, `ResidualVelocity`);
  - both layered-move groups and their wire forms (`LayeredMoveGroup`, `LayeredMoveWire`, `LayeredMoveInstances`, `LayeredMoveInstanceWire`);
  - movement modifiers (`MovementModifier`, `ModifierWire`);
  - the simulation types (`SimulationTypes`);
  - the default inputs and motion state (`DataModelTypes`);
  - the dictionary data (`MoverDictionary`);
  - based movement (`BasedMovement`);
  - the mover component's registries, persistence and up direction (`MoverComponent`).
- `Common`, `Bits` and `MoverTypes` hold shared definitions.

Some conventions apply throughout:
- Integer widths are explicit: int32 frames, uint8 counters, uint32 stamps and IDs.
- Floating-point values are exact `real`s.
- Whatever the code reads from the engine becomes a parameter: the clock, console variables, network statistics, physics steps and the transform and interpolation primitives.
- Where the code looks wrong, the model keeps the code as written next to a corrected definition. A lemma exhibits the difference, and the rest of the model uses the corrected one (see "## Findings").

The movement mixer has two overloads of `MixLayeredMove`: one for legacy layered moves and one for layered-move instances (JoltMovementMixer.cpp lines 16-97 and 98-180). They differ only in how they read a move's priority and start time. `MovementMixer.MixLayeredMove` takes those two values as parameters, so it stands for both.

## Model

| member | source | states |
|---|---|---|
| SnapshotHistory.RoundUpToPowerOfTwo | Source/JoltBridge/Private/Core/Singletons/JoltPhysicsWorldSubsystem.cpp:2124-2136 | inputs up to 1 give 1; every result is an int32 (the smear is done in int32 arithmetic) |
| SnapshotHistory.RoundUpToPowerOfTwoIsLeastPower | Source/JoltBridge/Private/Core/Singletons/JoltPhysicsWorldSubsystem.cpp:2124-2136 | for 2 <= v <= 2^30 the result is a power of two, at least v, and its half is below v: the least power of two at or above v |
| SnapshotHistory.RoundUpIsPowerOfBitLen | Source/JoltBridge/Private/Core/Singletons/JoltPhysicsWorldSubsystem.cpp:2127-2134 | decrement, smear and increment give 2^BitLen(v - 1) for 2 <= v <= 2^30 |
| SnapshotHistory.RoundUpToPowerOfTwoWrapsAbove2To30 | Source/JoltBridge/Private/Core/Singletons/JoltPhysicsWorldSubsystem.cpp:2134 | above 2^30 the final increment overflows int32 and the result is INT32_MIN |
| SnapshotHistory.DesiredCapacity | Source/JoltBridge/Private/Core/Singletons/JoltPhysicsWorldSubsystem.cpp:2140-2146 | the capacity is at least 8 and at least the configured one; exactly max(configured, 8) without the force flag, the least power of two at or above it with the flag |
| SnapshotHistory.InitializeSnapshotHistory | Source/JoltBridge/Private/Core/Singletons/JoltPhysicsWorldSubsystem.cpp:2138-2157 | the history has the desired capacity (a power of two whose half is below max(configured, 8) when forced) and every slot is reset |
| SnapshotHistory.EnsureReady | Source/JoltBridge/Private/Core/Singletons/JoltPhysicsWorldSubsystem.cpp:2159-2165 | a non-empty history is left alone; afterwards the history is never empty |
| SnapshotHistory.FrameToSlotIndex | Source/JoltBridge/Private/Core/Singletons/JoltPhysicsWorldSubsystem.cpp:2177-2192 | for a positive capacity and a non-negative frame the slot lies in [0, capacity) |
| SnapshotHistory.MaskedSlotIsModulo | Source/JoltBridge/Private/Core/Singletons/JoltPhysicsWorldSubsystem.cpp:2184-2191 | for a power-of-two capacity the mask fast path `frame & (capacity - 1)` equals `frame % capacity` |
| SnapshotHistory.FrameToSlotIndexIsModulo | Source/JoltBridge/Private/Core/Singletons/JoltPhysicsWorldSubsystem.cpp:2177-2192 | whichever path is taken, the slot is `frame % capacity` |
| SnapshotHistory.SaveStateForFrame | Source/JoltBridge/Private/Core/Singletons/JoltPhysicsWorldSubsystem.cpp:2194-2230 | a dedicated server without server snapshots changes nothing; otherwise only slot FrameToSlotIndex(frame) is overwritten, with the frame and the recorded bytes, and every other slot of the readied history is kept |
| SnapshotHistory.RestoreStateForFrame | Source/JoltBridge/Private/Core/Singletons/JoltPhysicsWorldSubsystem.cpp:2232-2271 | the history is readied; restoring succeeds exactly when the frame's slot still holds that frame and non-empty bytes, and then hands back those bytes |
| SnapshotHistory.HasStateForFrame | Source/JoltBridge/Private/Core/Singletons/JoltPhysicsWorldSubsystem.cpp:2292-2302 | an empty history or INDEX_NONE has no state |
| SnapshotHistory.GetLastPhysicsState | Source/JoltBridge/Private/Core/Singletons/JoltPhysicsWorldSubsystem.cpp:2169-2175 | fails exactly on an empty history; otherwise yields the last slot's bytes |
| SnapshotHistory.RestoreAgreesWithHasState | Source/JoltBridge/Private/Core/Singletons/JoltPhysicsWorldSubsystem.cpp:2250-2259 | on a non-empty history a restore succeeds exactly when HasStateForFrame reports the frame |
| SnapshotHistory.SaveThenRestore | Source/JoltBridge/Private/Core/Singletons/JoltPhysicsWorldSubsystem.cpp:2194-2302 | after saving non-empty bytes for a frame, the frame is present and restoring it yields those bytes |
| SnapshotHistory.SaveElsewherePreservesHasState | Source/JoltBridge/Private/Core/Singletons/JoltPhysicsWorldSubsystem.cpp:2224-2229 | saving a frame that maps to another slot leaves HasStateForFrame(f) unchanged |
| SnapshotHistory.CollidingSaveEvicts | Source/JoltBridge/Private/Core/Singletons/JoltPhysicsWorldSubsystem.cpp:2224-2229 | saving a different frame into f's slot makes f absent |
| SnapshotHistory.FramesOneCapacityApartCollide | Source/JoltBridge/Private/Core/Singletons/JoltPhysicsWorldSubsystem.cpp:2177-2192 | frames one capacity apart share a slot |
| CollisionMasks.DefaultUserData | Source/JoltBridge/Public/Core/DataTypes/JoltBridgeTypes.h:237-266 | a fresh user data carries the magic value, all three masks and the channel are zero, both enable flags are set and the shape sizes and restitution are 1 |
| CollisionMasks.ChannelBit | Source/JoltBridge/Public/Core/Libraries/JoltBridgeLibrary.h:227-231 | the channel bit is 2^(channel mod 32): the channel is reduced with & 31 before the shift |
| CollisionMasks.MaskHasChannelIsBit | Source/JoltBridge/Public/Core/Libraries/JoltBridgeLibrary.h:234-235 | testing a mask against a channel bit reads bit (channel mod 32) of the mask |
| CollisionMasks.IsAnyCollisionAllowed | Source/JoltBridge/Public/Core/Libraries/JoltBridgeLibrary.h:220-239 | false when either side is null; otherwise true exactly when each combined mask has the other's channel bit |
| CollisionMasks.IsBlockingCollisionAllowed | Source/JoltBridge/Public/Core/Libraries/JoltBridgeLibrary.h:241-260 | false when either side is null; otherwise true exactly when each block mask has the other's channel bit |
| CollisionMasks.IsOverlappingCollisionAllowed | Source/JoltBridge/Public/Core/Libraries/JoltBridgeLibrary.h:274-293 | false when either side is null; otherwise true exactly when either overlap mask has the other's channel bit |
| CollisionMasks.IsOverlappingBodiesAllowed | Source/JoltBridge/Public/Core/Libraries/JoltBridgeLibrary.h:262-272 | null bodies never overlap; otherwise the answer is the user-data test on the bodies' user data |
| CollisionMasks.GetUserData | Source/JoltBridge/Public/Core/Libraries/JoltBridgeLibrary.h:332-341 | the user data is returned exactly when the body and its user data exist and the magic number matches, and null otherwise |
| CollisionMasks.AnyCollisionSymmetric | Source/JoltBridge/Public/Core/Libraries/JoltBridgeLibrary.h:220-239 | the "any" test does not depend on the order of its arguments |
| CollisionMasks.BlockingCollisionSymmetric | Source/JoltBridge/Public/Core/Libraries/JoltBridgeLibrary.h:241-260 | the blocking test does not depend on the order of its arguments |
| CollisionMasks.OverlappingCollisionSymmetric | Source/JoltBridge/Public/Core/Libraries/JoltBridgeLibrary.h:274-293 | the overlap test does not depend on the order of its arguments |
| CollisionMasks.BuildResponseMasks | Source/JoltBridge/Public/Core/Libraries/JoltBridgeLibrary.h:295-329 | for each of the 32 channels, bit i of Combined is set iff the response is not Ignore, bit i of Block iff it is Block, bit i of Overlap iff it is Overlap; no bit above 31 is set |
| CollisionMasks.AddBit | Source/JoltBridge/Public/Core/Libraries/JoltBridgeLibrary.h:315-323 | OR-ing in bit i of a mask below 2^i sets bit i and keeps every other bit |
| CollisionMasks.ResponseMasksPartition | Source/JoltBridge/Public/Core/Libraries/JoltBridgeLibrary.h:295-329 | the Block and Overlap masks share no bit, and both lie inside Combined |
| CollisionMasks.BlockingImpliesAny | Source/JoltBridge/Public/Core/Libraries/JoltBridgeLibrary.h:220-260 | for user data filled by BuildResponseMasks, a pair allowed to block is also allowed by the "any" test |
| CollisionMasks.PackDataToGroupIDs | Source/JoltBridge/Public/Core/Libraries/JoltBridgeLibrary.h:206-211 | both halves of a 64-bit pointer fit in 32 bits |
| CollisionMasks.UnpackDataFromGroupIDs | Source/JoltBridge/Public/Core/Libraries/JoltBridgeLibrary.h:213-218 | two 32-bit ids combine into a 64-bit pointer |
| CollisionMasks.UnpackInvertsPack | Source/JoltBridge/Public/Core/Libraries/JoltBridgeLibrary.h:206-218 | unpacking the packed halves restores the original 64-bit value |
| CollisionMasks.PackInvertsUnpack | Source/JoltBridge/Public/Core/Libraries/JoltBridgeLibrary.h:206-218 | packing the unpacked pointer gives back both ids |
| CollisionMasks.PackOfSum | Source/JoltBridge/Public/Core/Libraries/JoltBridgeLibrary.h:206-211 | a 64-bit value hi * 2^32 + lo packs to (lo, hi) |
| Conversions.ToUnrealFloat | Source/JoltBridge/Public/Core/Libraries/JoltBridgeLibrary.h:40-43 | a Jolt size in metres is 100 times larger in centimetres |
| Conversions.ToJoltFloat | Source/JoltBridge/Public/Core/Libraries/JoltBridgeLibrary.h:45-48 | an Unreal size in centimetres is a hundredth in metres |
| Conversions.ToJoltVector3 | Source/JoltBridge/Public/Core/Libraries/JoltBridgeLibrary.h:55-61 | X stays, Y and Z swap, and each component is divided by 100 when scaling is asked for |
| Conversions.ToUnrealVector3 | Source/JoltBridge/Public/Core/Libraries/JoltBridgeLibrary.h:63-69 | X stays, Y and Z swap, and each component is multiplied by 100 when scaling is asked for |
| Conversions.ToJoltFloat3 | Source/JoltBridge/Public/Core/Libraries/JoltBridgeLibrary.h:50-53 | a float vector converts like a scaled vector |
| Conversions.ToJoltPosition | Source/JoltBridge/Public/Core/Libraries/JoltBridgeLibrary.h:82-85 | the position relative to the world origin, with Y and Z swapped, in metres |
| Conversions.ToUnrealPosition | Source/JoltBridge/Public/Core/Libraries/JoltBridgeLibrary.h:76-80 | the swapped position in centimetres, offset by the world origin |
| Conversions.ToUnrealRotation | Source/JoltBridge/Public/Core/Libraries/JoltBridgeLibrary.h:87-90 | the quaternion (-x, -z, -y, w) |
| Conversions.ToJoltRotation | Source/JoltBridge/Public/Core/Libraries/JoltBridgeLibrary.h:92-95 | the quaternion (-X, -Z, -Y, W) |
| Conversions.RotationRoundTrips | Source/JoltBridge/Public/Core/Libraries/JoltBridgeLibrary.h:87-95 | ToUnrealRotation and ToJoltRotation are inverse to each other |
| Conversions.VectorRoundTrips | Source/JoltBridge/Public/Core/Libraries/JoltBridgeLibrary.h:55-69 | with the same scaling flag, ToUnrealVector3 and ToJoltVector3 are inverse to each other |
| Conversions.PositionRoundTrips | Source/JoltBridge/Public/Core/Libraries/JoltBridgeLibrary.h:76-85 | for the same world origin, ToUnrealPosition and ToJoltPosition are inverse to each other |
| ShapeDescriptor.Add | Source/JoltBridge/Public/Core/DataTypes/JoltBridgeTypes.h:51-55 | exactly one shape is appended, holding the component, the given root flag and id 0; the existing shapes and the descriptor's table are kept |
| ShapeDescriptor.FirstRoot | Source/JoltBridge/Public/Core/DataTypes/JoltBridgeTypes.h:57-79 | the index of the first root-flagged shape, or none when no shape is flagged |
| ShapeDescriptor.GetRootComponent | Source/JoltBridge/Public/Core/DataTypes/JoltBridgeTypes.h:57-67 | the component of the first root-flagged shape, or null when there is none |
| ShapeDescriptor.GetRootColliderId | Source/JoltBridge/Public/Core/DataTypes/JoltBridgeTypes.h:69-79 | the id of the first root-flagged shape, or 0 (not INDEX_NONE) when there is none |
| ShapeDescriptor.FirstMatch | Source/JoltBridge/Public/Core/DataTypes/JoltBridgeTypes.h:81-91 | the index of the first shape whose component is the target, optionally passing over shapes whose component is gone |
| ShapeDescriptor.GetColliderId | Source/JoltBridge/Public/Core/DataTypes/JoltBridgeTypes.h:81-91 | the id of the first shape whose component equals the target, or INDEX_NONE when none does |
| ShapeDescriptor.Find | Source/JoltBridge/Public/Core/DataTypes/JoltBridgeTypes.h:124-134 | like GetColliderId but shapes whose component is gone are skipped; INDEX_NONE on a miss |
| ShapeDescriptor.FindNullMisses | Source/JoltBridge/Public/Core/DataTypes/JoltBridgeTypes.h:124-134 | a null target is never found |
| ShapeDescriptor.FindAgreesWithGetColliderId | Source/JoltBridge/Public/Core/DataTypes/JoltBridgeTypes.h:81-91 | for a live target, Find and GetColliderId give the same id |
| ShapeDescriptor.FirstMatchLiveTarget | Source/JoltBridge/Public/Core/DataTypes/JoltBridgeTypes.h:124-134 | for a live target, skipping dead shapes does not change which shape matches first |
| ShapeDescriptor.GetCollisionResponseContainer | Source/JoltBridge/Public/Core/DataTypes/JoltBridgeTypes.h:136-146 | the responses of the first live shape holding the target, falling back to the descriptor-level table when none matches |
| ShapeDescriptor.AddThenFind | Source/JoltBridge/Public/Core/DataTypes/JoltBridgeTypes.h:51-55 | after adding a live component no other shape holds, Find returns its id 0 |
| ShapeDescriptor.ClosestFrom | Source/JoltBridge/Public/Core/DataTypes/JoltBridgeTypes.h:103-119 | the scan keeps the first live shape strictly closer than the best so far: the result is no farther than any live shape, and nothing is chosen when no live shape beats the start value |
| ShapeDescriptor.FindClosestPrimitive | Source/JoltBridge/Public/Core/DataTypes/JoltBridgeTypes.h:93-122 | with exactly one shape, that shape's component without a distance test; otherwise a live component from the shapes, closer than the float maximum |
| ShapeDescriptor.ClosestIsScanned | Source/JoltBridge/Public/Core/DataTypes/JoltBridgeTypes.h:103-119 | a chosen component's distance is the best distance recorded, below the start value |
| ShapeDescriptor.ClosestKeepsNearest | Source/JoltBridge/Public/Core/DataTypes/JoltBridgeTypes.h:112-116 | once a candidate is held, the result is a component whose distance is the recorded best |
| ShapeDescriptor.ClosestIsNearest | Source/JoltBridge/Public/Core/DataTypes/JoltBridgeTypes.h:93-122 | with other than one shape, the chosen component is at least as close as every live shape closer than the float maximum |
| LayerFilters.ObjectLayersCollide | Source/JoltBridge/Public/Core/CollisionFilters/JoltFilters.h:21-33 | NON_MOVING collides only with MOVING, MOVING collides with everything, an unknown first layer never collides |
| LayerFilters.ObjectLayersCollideTable | Source/JoltBridge/Public/Core/CollisionFilters/JoltFilters.h:21-33 | for known layers, a pair collides exactly when one of them is MOVING |
| LayerFilters.ObjectLayersCollideSymmetric | Source/JoltBridge/Public/Core/CollisionFilters/JoltFilters.h:21-33 | for known layers the pair filter is symmetric |
| LayerFilters.GetNumBroadPhaseLayers | Source/JoltBridge/Public/Core/CollisionFilters/JoltFilters.h:71-74 | there are 2 broadphase layers |
| LayerFilters.GetBroadPhaseLayer | Source/JoltBridge/Public/Core/CollisionFilters/JoltFilters.h:64-80 | NON_MOVING maps to broadphase NON_MOVING and MOVING to broadphase MOVING, always below the layer count |
| LayerFilters.ObjectVsBroadPhaseCollide | Source/JoltBridge/Public/Core/CollisionFilters/JoltFilters.h:106-118 | NON_MOVING meets only the MOVING broadphase layer, MOVING meets every layer, an unknown layer meets none |
| LayerFilters.BroadPhaseAgreesWithPairFilter | Source/JoltBridge/Public/Core/CollisionFilters/JoltFilters.h:64-118 | the object-versus-broadphase filter agrees with the object-pair filter under the layer mapping |
| LayerFilters.ShouldSaveBody | Source/JoltBridge/Public/Core/CollisionFilters/JoltFilters.h:124-134 | a body is saved exactly when its id is in the allow list |
| LayerFilters.AddToBodyIDAllowList | Source/JoltBridge/Public/Core/CollisionFilters/JoltFilters.h:136-139 | the id is inserted at the front and the rest of the list follows unchanged |
| LayerFilters.AllowListAdd | Source/JoltBridge/Public/Core/CollisionFilters/JoltFilters.h:124-139 | after adding an id, a body is saved exactly when it is that id or was allowed before |
| ShapeCache.FirstReusable | Source/JoltBridge/Private/Core/Singletons/JoltPhysicsWorldSubsystem.cpp:277-293 | the first cached shape with matching dimensions and an acceptable material, or none |
| ShapeCache.GetOrCreate | Source/JoltBridge/Private/Core/Singletons/JoltPhysicsWorldSubsystem.cpp:272-363 | the returned shape has the requested dimensions and an acceptable material; the cache keeps its prefix and grows by exactly one new shape exactly when no cached shape was acceptable |
| ShapeCache.GetOrCreateIsStable | Source/JoltBridge/Private/Core/Singletons/JoltPhysicsWorldSubsystem.cpp:272-363 | asking again for the same shape returns it with the cache unchanged |
| ShapeCache.NullMaterialReusesAny | Source/JoltBridge/Private/Core/Singletons/JoltPhysicsWorldSubsystem.cpp:287-290 | a request without a material accepts a cached shape of the right size whatever its material |
| ShapeCache.FirstIsUnique | Source/JoltBridge/Private/Core/Singletons/JoltPhysicsWorldSubsystem.cpp:277-293 | the first acceptable index is the one the scan returns |
| ShapeCache.BoxHalfExtent | Source/JoltBridge/Private/Core/Singletons/JoltPhysicsWorldSubsystem.cpp:276 | a box is keyed by half its dimensions, axis-swapped and in metres |
| ShapeCache.GetBoxCollisionShape | Source/JoltBridge/Private/Core/Singletons/JoltPhysicsWorldSubsystem.cpp:272-302 | the returned box has the requested half extent; only the box cache changes, growing by at most one |
| ShapeCache.GetSphereCollisionShape | Source/JoltBridge/Private/Core/Singletons/JoltPhysicsWorldSubsystem.cpp:304-332 | the returned sphere has the requested radius in metres; only the sphere cache changes, growing by at most one |
| ShapeCache.GetCapsuleCollisionShape | Source/JoltBridge/Private/Core/Singletons/JoltPhysicsWorldSubsystem.cpp:334-363 | the returned capsule has the requested radius and half height in metres; only the capsule cache changes, growing by at most one |
| ShapeCache.BoxRequestIsStable | Source/JoltBridge/Private/Core/Singletons/JoltPhysicsWorldSubsystem.cpp:272-302 | requesting the same box twice returns the same shape and adds nothing the second time |
| BodySettings.DefaultBodyOptions | Source/JoltBridge/Public/Core/DataTypes/JoltBridgeTypes.h:172-227 | the body options' initialisers: static shape, overlap and collision events on, no activation, sleep or vertical lock, mass 10, restitution and friction 1, gravity override (0, 0, -980) |
| BodySettings.MotionAndLayer | Source/JoltBridge/Private/Core/Singletons/JoltPhysicsWorldSubsystem.cpp:677-692 | STATIC maps to (Static, NON_MOVING), DYNAMIC to (Dynamic, MOVING) and KINEMATIC to (Kinematic, MOVING) |
| BodySettings.MakeBodyCreationSettings | Source/JoltBridge/Private/Core/Singletons/JoltPhysicsWorldSubsystem.cpp:672-754 | motion type and layer as mapped; converted position and rotation; sleeping as configured; mass scaled only for dynamic bodies and the Y-rotation-only freedom only for vertical dynamic bodies; a sensor exactly when overlap events are on and collision events off; FROM_MOVER zeroes gravity factor and damping; the collision group holds the packed user-data address |
| BodySettings.ToUint32 | Source/JoltBridge/Private/Core/Singletons/JoltPhysicsWorldSubsystem.cpp:61-62 | an int32 setting stored into a uint32 counter keeps its value modulo 2^32 |
| BodySettings.InitCounters | Source/JoltBridge/Private/Core/Singletons/JoltPhysicsWorldSubsystem.cpp:61-62 | both counters start at their configured first ids |
| BodySettings.NextDynamicId | Source/JoltBridge/Private/Core/Singletons/JoltPhysicsWorldSubsystem.cpp:628-635 | the dynamic counter is pre-incremented with 32-bit wrap and the new value is the body's id; the static counter is untouched |
| BodySettings.NextStaticId | Source/JoltBridge/Private/Core/Singletons/JoltPhysicsWorldSubsystem.cpp:642-651 | the static counter is pre-incremented with 32-bit wrap and the new value is the body's id; the dynamic counter is untouched |
| BodySettings.Allocate | Source/JoltBridge/Private/Core/Singletons/JoltPhysicsWorldSubsystem.cpp:628-651 | any interleaving of allocations keeps both counters 32-bit |
| BodySettings.AllocateCounts | Source/JoltBridge/Private/Core/Singletons/JoltPhysicsWorldSubsystem.cpp:628-651 | after n dynamic and m static allocations the counters are start + n and start + m, wrapped to 32 bits |
| BodySettings.DefaultRangesStayApart | Source/JoltBridge/Private/JoltBridgeCoreSettings.cpp:17-18 | with the default starts 21845 and 43690, the first 21845 static ids never meet a dynamic id handed out before the dynamic counter wraps |
| BodySettings.DynamicIdsDistinct | Source/JoltBridge/Private/Core/Singletons/JoltPhysicsWorldSubsystem.cpp:628-635 | successive dynamic ids are pairwise distinct until the counter has gone all the way round |
| TickState.DefaultFixedTickState | Source/JoltNetworkPrediction/Public/JoltNetworkPredictionTickState.h:68-92 | a fresh fixed tick state starts at pending frame 0 with nothing confirmed, zero offsets, a 33 ms step and no unspent time |
| TickState.GetTotalSimTimeMS | Source/JoltNetworkPrediction/Public/JoltNetworkPredictionTickState.h:125-128 | the total simulated time is zero at server frame 0 and one more step brings it to the end of the pending server frame |
| TickState.GetNextTimeStep | Source/JoltNetworkPrediction/Public/JoltNetworkPredictionTickState.h:115-118 | the next simulation step lasts one fixed step, starts at the current total time and produces the server frame after the pending one |
| TickState.GetNextServiceTimeStep | Source/JoltNetworkPrediction/Public/JoltNetworkPredictionTickState.h:120-123 | a service step reads the pending local frame, writes the next local frame and ends one step after the pending server frame starts |
| TickState.FixedStepsAgree | Source/JoltNetworkPrediction/Public/JoltNetworkPredictionTickState.h:115-128 | the service step and the simulation step describe the same tick: the service end time is the step's start plus its length, and the step's frame is the service output frame shifted by the offset |
| TickState.FixedTotalTimeAdvances | Source/JoltNetworkPrediction/Public/JoltNetworkPredictionTickState.h:125-128 | advancing the pending frame by one adds exactly one fixed step to the total time |
| TickState.DefaultVariableTickState | Source/JoltNetworkPrediction/Public/JoltNetworkPredictionTickState.h:141-156 | a fresh variable tick state has a 64-frame buffer of zeroed frames, pending frame 0, nothing confirmed and no unspent time |
| TickState.VariableNextTimeStep | Source/JoltNetworkPrediction/Public/JoltNetworkPredictionTickState.h:171-174 | the next step takes its length and start time from the pending frame's record and produces the next local frame |
| TickState.VariableNextTimeStepFromBuffer | Source/JoltNetworkPrediction/Public/JoltNetworkPredictionTickState.h:166-169 | the no-argument form reads the pending frame's record from the ring buffer and agrees with the explicit form |
| TickState.VariableNextServiceTimeStep | Source/JoltNetworkPrediction/Public/JoltNetworkPredictionTickState.h:176-179 | a service step reads the pending frame, writes the next one and ends where the pending frame's delta takes its total |
| TickState.VariableStepsAgree | Source/JoltNetworkPrediction/Public/JoltNetworkPredictionTickState.h:166-179 | for the variable tick too, the service end time is the step's start plus its length and both name the same output frame |
| BitStream.Int32ToU32 | Source/JoltNetworkPrediction/Public/JoltNetworkPredictionSerialization.h:88-91 | the (uint32&) reinterpretation keeps non-negative values and maps every int32 into 32 unsigned bits |
| BitStream.Int32RoundTrips | Source/JoltNetworkPrediction/Public/JoltNetworkPredictionSerialization.h:88-91 | reinterpreting an int32 as uint32 and back, or a uint32 as int32 and back, is the identity |
| BitStream.ReadInt32 | Source/JoltNetworkPrediction/Public/JoltNetworkPredictionSerialization.h:70-74 | reading an int32 from the archive fails exactly when fewer than 32 bits remain, and otherwise consumes exactly 32 bits |
| BitStream.ReadWriteInt32 | Source/JoltNetworkPrediction/Public/JoltNetworkPredictionSerialization.h:61-74 | an int32 streamed with << reads back unchanged and leaves whatever followed it |
| BitStream.ReadBit | Source/JoltNetworkPrediction/Public/JoltNetworkPredictionSerialization.h:433 | reading a single bit fails exactly on an empty archive and otherwise consumes that one bit |
| BitStream.ReadRaw | Source/JoltNetworkPrediction/Public/JoltNetworkPredictionSerialization.h:449-451 | reading n raw bits fails exactly when fewer than n remain and otherwise splits off exactly n bits |
| BitStream.WritePacked | Source/JoltNetworkPrediction/Public/JoltNetworkPredictionSerialization.h:88-91 | SerializeIntPacked writes whole bytes, at least one |
| BitStream.ReadWritePacked | Source/JoltNetworkPrediction/Public/JoltNetworkPredictionSerialization.h:441 | a packed unsigned value reads back unchanged and leaves whatever followed it |
| Serialization.FrameConstants | Source/JoltNetworkPrediction/Public/JoltNetworkPredictionSerialization.h:38-46 | MAX_FRAME_WRITE is 2^NUM_BITS_FRAME and FRAME_ERROR_THRESHOLD is half of it, 128 frames with 8 bits |
| Serialization.WriteCompressedFrame | Source/JoltNetworkPrediction/Public/JoltNetworkPredictionSerialization.h:60-67 | with the 8-bit scheme disabled, a compressed frame takes the full 32 bits |
| Serialization.CompressedFrameRoundTrips | Source/JoltNetworkPrediction/Public/JoltNetworkPredictionSerialization.h:60-78 | every int32 frame reads back unchanged, whatever relative frame the reader passes |
| Serialization.WriteTimeMS | Source/JoltNetworkPrediction/Public/JoltNetworkPredictionSerialization.h:80-85 | a timestamp is written as a plain 32-bit int |
| Serialization.ReadTimeMS | Source/JoltNetworkPrediction/Public/JoltNetworkPredictionSerialization.h:80-85 | a timestamp is read as a plain 32-bit int |
| Serialization.WriteDeltaMS | Source/JoltNetworkPrediction/Public/JoltNetworkPredictionSerialization.h:87-91 | a delta time is written packed, in whole bytes |
| Serialization.ReadDeltaMS | Source/JoltNetworkPrediction/Public/JoltNetworkPredictionSerialization.h:87-91 | a packed delta time reads back as an int32 |
| Serialization.DeltaMSRoundTrips | Source/JoltNetworkPrediction/Public/JoltNetworkPredictionSerialization.h:87-91 | every int32 delta time, negative ones included, survives the packed unsigned encoding and leaves the rest of the stream |
| Serialization.ReadDeltaUpdate | Source/JoltNetworkPrediction/Public/JoltNetworkPredictionSerialization.h:426-454 | an update whose base is not among the acked frames is discarded and consumes at least its header; an accepted one has no base or an acked base other than INDEX_NONE |
| Serialization.DeltaUpdateRoundTrips | Source/JoltNetworkPrediction/Public/JoltNetworkPredictionSerialization.h:576-609 | the has-base bit, base frame, packed size and payload written by the server read back on the client as either a discard of exactly that update or the same base and the same payload bits, leaving the rest of the stream |
| Serialization.DeltaUpdateSplits | Source/JoltNetworkPrediction/Public/JoltNetworkPredictionSerialization.h:581-585 | the framing begins with the has-base bit, followed by the base frame when there is one |
| Serialization.SizedPayloadRoundTrips | Source/JoltNetworkPrediction/Public/JoltNetworkPredictionSerialization.h:607-609 | the packed size followed by that many bits reads back as exactly the payload |
| Serialization.PruneAckedFrames | Source/JoltNetworkPrediction/Public/JoltNetworkPredictionSerialization.h:456-465 | after accepting a base, exactly the acked frames at or after it remain, with their saved states unchanged |
| Serialization.PruneDiscardsOlderBases | Source/JoltNetworkPrediction/Public/JoltNetworkPredictionSerialization.h:443-465 | after accepting base b, a later update built on an older frame is discarded whole, and one built on b or a later acked frame is still read back intact |
| Serialization.PruneTwice | Source/JoltNetworkPrediction/Public/JoltNetworkPredictionSerialization.h:456-465 | pruning against successive bases leaves what pruning against the latest one leaves |
| Replicators.APDeltaBase | Source/JoltNetworkPrediction/Public/JoltNetworkPredictionSerialization.h:539-579 | the AP server picks a delta base exactly when delta serialization is on, the client has consumed input, and the acked frame reinterpreted as int32 is before the pending frame and less than a buffer's capacity behind it; the base is that frame |
| Replicators.SPDeltaBase | Source/JoltNetworkPrediction/Public/JoltNetworkPredictionSerialization.h:838-855 | the SP server picks a delta base exactly when delta serialization is on, an acked frame is recorded, it is not INDEX_NONE and it is less than a capacity behind the pending frame, whether before or after it |
| Replicators.SPBaseMayBeAhead | Source/JoltNetworkPrediction/Public/JoltNetworkPredictionSerialization.h:844-848 | an acked frame two frames ahead of the pending frame is taken as the SP base while the AP rule refuses it |
| Replicators.SPDeltaBaseGuarded | Source/JoltNetworkPrediction/Public/JoltNetworkPredictionSerialization.h:562 | the SP choice with the AP's before-the-pending-frame condition added: a base exactly when that frame is behind the pending one and within reach |
| Replicators.GuardedBaseSlotIntact | Source/JoltNetworkPrediction/Public/JoltNetworkPredictionSerialization.h:859 | with the guard, no frame after the base up to the pending frame shares the base's ring-buffer slot, so the slot still holds the base frame's state when it is sent |
| Replicators.APBaseIsGuardedSPBase | Source/JoltNetworkPrediction/Public/JoltNetworkPredictionSerialization.h:553-579 | for a client that has consumed input the AP choice and the guarded SP choice coincide |
| Replicators.FixedAPPayload | Source/JoltNetworkPrediction/Public/JoltNetworkPredictionSerialization.h:597-602 | the local writer holds the consumed client frame and server frame, 64 bits, before the state |
| Replicators.ReadAPPayload | Source/JoltNetworkPrediction/Public/JoltNetworkPredictionSerialization.h:468-469 | reading the payload takes the two 32-bit frames first and leaves the rest |
| Replicators.ReadAPPayloadOfWrite | Source/JoltNetworkPrediction/Public/JoltNetworkPredictionSerialization.h:468-469 | the two frames and the state written by the server read back unchanged |
| Replicators.FixedAPNetRecv | Source/JoltNetworkPrediction/Public/JoltNetworkPredictionSerialization.h:426-520 | a received update keeps the client's id; when it changes the client, the confirmed frame plus the offset is the server frame and the latest AP-received frame is the server frame |
| Replicators.FixedAPRoundTrip | Source/JoltNetworkPrediction/Public/JoltNetworkPredictionSerialization.h:426-610 | what the server sends, the AP client reads: a base the client lacks leaves it unchanged with the reader past the update; otherwise the client holds the server's frame and state, and a reported consumed frame makes the offset the server frame less that frame less one |
| Replicators.FixedAPPrunesOlderFrames | Source/JoltNetworkPrediction/Public/JoltNetworkPredictionSerialization.h:456-466 | after an update accepted against an acked base, the base is still acked and every acked frame is the base or later, or the frame just recorded |
| Replicators.FixedSPPayload | Source/JoltNetworkPrediction/Public/JoltNetworkPredictionSerialization.h:871-876 | the SP local writer holds the 32-bit server frame before the state |
| Replicators.FixedSPNetRecv | Source/JoltNetworkPrediction/Public/JoltNetworkPredictionSerialization.h:749-816 | the latest SP-received frame never decreases and reaches the server frame; a positive server frame is recorded as acked with the received state |
| Replicators.FixedSPRoundTrip | Source/JoltNetworkPrediction/Public/JoltNetworkPredictionSerialization.h:749-884 | what the server sends, the SP client reads: a base the client lacks leaves it unchanged past the update; otherwise it holds the server frame and the state |
| Replicators.IndependentAPNetSend | Source/JoltNetworkPrediction/Public/JoltNetworkPredictionSerialization.h:643-653 | the independent AP update is the consumed frame and total time, 64 bits, then the state |
| Replicators.IndependentAPNetRecv | Source/JoltNetworkPrediction/Public/JoltNetworkPredictionSerialization.h:623-638 | the server frame is confirmed as it is, and the id and acked frames are untouched |
| Replicators.IndependentAPRoundTrip | Source/JoltNetworkPrediction/Public/JoltNetworkPredictionSerialization.h:623-653 | the client reads the server frame as one past the last consumed client frame, confirms it, and reads back the total time and the state |
| Replicators.IndependentSPNetSend | Source/JoltNetworkPrediction/Public/JoltNetworkPredictionSerialization.h:963-978 | the server time, the independent time only in traced builds, then the state |
| Replicators.IndependentSPNetRecv | Source/JoltNetworkPrediction/Public/JoltNetworkPredictionSerialization.h:897-928 | the latest received time is the maximum of the old one and the received sim time; frame and acked frames are untouched |
| Replicators.IndependentSPRoundTrip | Source/JoltNetworkPrediction/Public/JoltNetworkPredictionSerialization.h:897-978 | in traced and untraced builds alike the client reads back the server's sim time and the state and raises its latest received time to it |
| ServerInput.CopyForward | Source/JoltNetworkPrediction/Public/JoltNetworkPredictionSerialization.h:143-151 | the fixed-tick gap fill keeps the buffer well formed and its capacity |
| ServerInput.CopyForwardKeepsEarlier | Source/JoltNetworkPrediction/Public/JoltNetworkPredictionSerialization.h:143-151 | frames before the gap, within a capacity of its end, keep their inputs |
| ServerInput.CopyForwardFills | Source/JoltNetworkPrediction/Public/JoltNetworkPredictionSerialization.h:143-151 | every dropped frame ends up repeating the input of the frame before the gap (frame 0's own when the gap starts at 0), for a gap shorter than the buffer |
| ServerInput.ZeroDeltas | Source/JoltNetworkPrediction/Public/JoltNetworkPredictionSerialization.h:270-275 | the independent-tick gap fill keeps the buffer well formed and its capacity |
| ServerInput.ZeroDeltasSpec | Source/JoltNetworkPrediction/Public/JoltNetworkPredictionSerialization.h:270-275 | the gap fill changes no command, gives every dropped frame delta time 0, and leaves nearby earlier frames alone |
| ServerInput.InitialIndependent | Source/JoltNetworkPrediction/Public/Services/JoltNetworkPredictionInstanceData.h:154-170 | a fresh independent receive record has a 16-entry input buffer, nothing consumed or received, pending frame 0 and no simulated time |
| ServerInput.IndependentRecvFrames | Source/JoltNetworkPrediction/Public/JoltNetworkPredictionSerialization.h:260-294 | the receive loop changes neither the consumed nor the pending frame, never moves the last received frame back, and leaves it at the later of the old one and the message's last frame |
| ServerInput.IndependentRecvKeepsReceived | Source/JoltNetworkPrediction/Public/JoltNetworkPredictionSerialization.h:262-265 | frames already received, within a capacity of the message's end, are left as they were |
| ServerInput.IndependentRecvStoresFirst | Source/JoltNetworkPrediction/Public/JoltNetworkPredictionSerialization.h:277-280 | the message's first frame, when new, holds its command and delta afterwards |
| ServerInput.IndependentRecvStores | Source/JoltNetworkPrediction/Public/JoltNetworkPredictionSerialization.h:260-294 | every frame of the message newer than the last received one is stored with its command and delta |
| ServerInput.IndependentRecvZeroesDropped | Source/JoltNetworkPrediction/Public/JoltNetworkPredictionSerialization.h:270-275 | frames skipped before the first new frame keep their command and get delta time 0 |
| ServerInput.AcceptZeroesGap | Source/JoltNetworkPrediction/Public/JoltNetworkPredictionSerialization.h:270-280 | one accepted frame past a gap zeroes each skipped frame's delta and keeps its command |
| ServerInput.IndependentResetOnGap | Source/JoltNetworkPrediction/Public/JoltNetworkPredictionSerialization.h:248-252 | when the message starts past the frame after the last consumed one, both the consumed and the received frame restart just before it; otherwise nothing changes |
| ServerInput.IndependentNetRecv | Source/JoltNetworkPrediction/Public/JoltNetworkPredictionSerialization.h:238-295 | after a message the last received frame is the later of the (possibly reset) last received frame and the message's last frame |
| ServerInput.IndependentResetCanRewindReceived | Source/JoltNetworkPrediction/Public/JoltNetworkPredictionSerialization.h:248-252 | with frames 11 to 20 received but only 10 consumed, a message for 12 to 17 moves the last received frame back to 17 |
| ServerInput.IndependentClientEntries | Source/JoltNetworkPrediction/Public/JoltNetworkPredictionSerialization.h:300-335 | the client sends the n frames before its pending frame, with each command and delta taken from its history and empty entries before frame 0 |
| ServerInput.IndependentSendRecv | Source/JoltNetworkPrediction/Public/JoltNetworkPredictionSerialization.h:238-335 | every frame of the message that the server had not received ends up in its buffer with the client's command and delta time |
| ServerInput.InitialFixed | Source/JoltNetworkPrediction/Public/Services/JoltNetworkPredictionInstanceData.h:132-150 | a fresh fixed receive record has a 32-entry input buffer and nothing consumed or received |
| ServerInput.FixedAccept | Source/JoltNetworkPrediction/Public/JoltNetworkPredictionSerialization.h:139-164 | accepting a new frame stores its command and makes it the last received frame, leaving the consumed frame alone |
| ServerInput.FixedAcceptKeepsReceived | Source/JoltNetworkPrediction/Public/JoltNetworkPredictionSerialization.h:139-164 | accepting a frame leaves every received frame within a capacity of it unchanged |
| ServerInput.FixedAcceptFillsGap | Source/JoltNetworkPrediction/Public/JoltNetworkPredictionSerialization.h:141-151 | when the server was not starved, the skipped frames repeat the last received frame's input |
| ServerInput.FixedRecvFrames | Source/JoltNetworkPrediction/Public/JoltNetworkPredictionSerialization.h:132-170 | frames at or before the last received or consumed frame are skipped; the last received frame becomes the message's last frame when that is new and nothing changes otherwise |
| ServerInput.FixedRecvKeepsReceived | Source/JoltNetworkPrediction/Public/JoltNetworkPredictionSerialization.h:134-137 | frames already received, within a capacity of the message's end, are unchanged |
| ServerInput.FixedRecvStores | Source/JoltNetworkPrediction/Public/JoltNetworkPredictionSerialization.h:132-170 | every frame newer than both the last received and the last consumed frame gets its command |
| ServerInput.FixedRecvStoresSkipped | Source/JoltNetworkPrediction/Public/JoltNetworkPredictionSerialization.h:132-170 | the same when the message begins with frames the server already had |
| ServerInput.FixedRecvStoresLater | Source/JoltNetworkPrediction/Public/JoltNetworkPredictionSerialization.h:132-170 | the same for the frames after a new first frame |
| ServerInput.FixedRecvStoresFirst | Source/JoltNetworkPrediction/Public/JoltNetworkPredictionSerialization.h:159-163 | the message's first frame, when new, holds its command afterwards |
| ServerInput.FixedRecvCopiesIntoGap | Source/JoltNetworkPrediction/Public/JoltNetworkPredictionSerialization.h:141-151 | unless starved, frames skipped before the first new one repeat the last received input, frame 0's when nothing was received |
| ServerInput.FixedNetRecv | Source/JoltNetworkPrediction/Public/JoltNetworkPredictionSerialization.h:122-171 | starvation is decided once before the loop; a message with a new frame ends with that message's last frame received, and an old message changes nothing |
| ServerInput.FixedClientCmds | Source/JoltNetworkPrediction/Public/JoltNetworkPredictionSerialization.h:176-208 | the client sends the commands of the n frames before its pending frame, with empty commands before frame 0 |
| ServerInput.FixedSendRecv | Source/JoltNetworkPrediction/Public/JoltNetworkPredictionSerialization.h:122-208 | every frame the client sends that the server had neither received nor consumed ends up in its buffer with the client's command |
| ReplicationProxy.MakeParams | Source/JoltNetworkPrediction/Public/JoltNetworkPredictionReplicationProxy.h:28-40 | parameters made without a target aim at the server RPC and carry no delta base |
| ReplicationProxy.MakeTargetedParams | Source/JoltNetworkPrediction/Public/JoltNetworkPredictionReplicationProxy.h:30-40 | parameters made with a target carry that target and no delta base; naming the server RPC is the same as naming none |
| ReplicationProxy.Unbind | Source/JoltNetworkPrediction/Public/JoltNetworkPredictionReplicationProxy.h:85-88 | unbinding clears a proxy's serialize function and keeps its target |
| ReplicationProxy.UnbindAll | Source/JoltNetworkPrediction/Public/JoltNetworkPredictionReplicationProxy.h:82-89 | afterwards none of the four proxies has a serialize function, and every target is kept |
| ReplicationProxy.UnbindAllIdempotent | Source/JoltNetworkPrediction/Public/JoltNetworkPredictionReplicationProxy.h:82-89 | unbinding twice is unbinding once, and a set with nothing bound is left as it is |
| ReplicationProxy.RoundToInt | Source/JoltNetworkPrediction/Public/JoltNetworkPredictionReplicationProxy.h:209 | rounding lands within half a unit of the value, halves rounding up |
| ReplicationProxy.Quantize | Source/JoltNetworkPrediction/Public/JoltNetworkPredictionReplicationProxy.h:207-210 | a stored dilation fits in a uint16 |
| ReplicationProxy.Dequantize | Source/JoltNetworkPrediction/Public/JoltNetworkPredictionReplicationProxy.h:206 | the read dilation is the stored units divided by 10000 |
| ReplicationProxy.DefaultDilationIsOne | Source/JoltNetworkPrediction/Public/JoltNetworkPredictionReplicationProxy.h:206-221 | the default stored value 10000 reads as dilation 1, and dilation 1 is stored as 10000 |
| ReplicationProxy.QuantizeDequantize | Source/JoltNetworkPrediction/Public/JoltNetworkPredictionReplicationProxy.h:206-210 | every stored value survives a read followed by a write |
| ReplicationProxy.QuantizeError | Source/JoltNetworkPrediction/Public/JoltNetworkPredictionReplicationProxy.h:207-210 | within range a dilation comes back within half a unit in the last place; below 0 it saturates at 0 and above the range at UINT16_MAX |
| ReplicationProxy.QuantizeMonotone | Source/JoltNetworkPrediction/Public/JoltNetworkPredictionReplicationProxy.h:207-210 | the quantizer never reorders dilations |
| ReplicationProxy.ReadBytes | Source/JoltNetworkPrediction/Public/JoltNetworkPredictionReplicationProxy.h:173-180 | reading n bytes fails exactly when fewer than 8n bits remain and otherwise consumes exactly 8n bits |
| ReplicationProxy.ReadWriteBytes | Source/JoltNetworkPrediction/Public/JoltNetworkPredictionReplicationProxy.h:177-180 | bytes written one by one read back unchanged, leaving whatever followed them |
| ReplicationProxy.ReadPackedU32 | Source/JoltNetworkPrediction/Public/JoltNetworkPredictionReplicationProxy.h:168-172 | a packed uint32 reads as a value below 2^32 and consumes at least a byte |
| ReplicationProxy.ReadWritePackedU32 | Source/JoltNetworkPrediction/Public/JoltNetworkPredictionReplicationProxy.h:168-172 | every uint32 survives the packed encoding |
| ReplicationProxy.WriteReplicatedInput | Source/JoltNetworkPrediction/Public/JoltNetworkPredictionReplicationProxy.h:166-180 | the ID, data size, byte count and bytes take at least three packed bytes plus eight bits per data byte |
| ReplicationProxy.ReadReplicatedInput | Source/JoltNetworkPrediction/Public/JoltNetworkPredictionReplicationProxy.h:166-184 | a successful read yields a well-formed input and consumes part of the stream |
| ReplicationProxy.ReadFieldsInTurn | Source/JoltNetworkPrediction/Public/JoltNetworkPredictionReplicationProxy.h:168-180 | the fields are read in the order ID, data size, count, bytes, each from where the last stopped |
| ReplicationProxy.ReplicatedInputRoundTrips | Source/JoltNetworkPrediction/Public/JoltNetworkPredictionReplicationProxy.h:166-184 | reading restores exactly the input written and leaves what followed |
| PlayerController.InitialController | Source/JoltNetworkPrediction/Public/JoltNetworkPredictionPlayerControllerComponent.h:54-93 | a fresh controller has received and consumed nothing, no interpolation time, nothing queued, and a dilation that reads as 1 |
| PlayerController.AdvanceLastConsumedFrame | Source/JoltNetworkPrediction/Private/JoltNetworkPredictionPlayerControllerComponent.cpp:146-165 | only the consumed frame changes; nothing happens before the first input; on starvation it falls back two frames behind the newest but not below 0; too far behind it jumps to seven behind the newest; otherwise it consumes the next frame |
| PlayerController.AdvanceStaysInWindow | Source/JoltNetworkPrediction/Private/JoltNetworkPredictionPlayerControllerComponent.cpp:146-165 | once input has arrived and the buffer size is at least 7, one advance leaves the consumed frame at or after 0, at or before the newest, and at most max(2, size) behind it |
| PlayerController.AdvanceInWindowConsumesOne | Source/JoltNetworkPrediction/Private/JoltNetworkPredictionPlayerControllerComponent.cpp:158-164 | within the window and short of the newest frame an advance consumes exactly one frame |
| PlayerController.SmallBufferCanUnderflow | Source/JoltNetworkPrediction/Private/JoltNetworkPredictionPlayerControllerComponent.cpp:158-162 | with a buffer size of 2, received frame 3 and nothing consumed, the overflow jump makes the consumed frame -4 |
| PlayerController.UpdateTimeDilation | Source/JoltNetworkPrediction/Private/JoltNetworkPredictionPlayerControllerComponent.cpp:123-130 | only the authority stores a new dilation, quantized; elsewhere nothing changes |
| PlayerController.OnRepTimeDilation | Source/JoltNetworkPrediction/Private/JoltNetworkPredictionPlayerControllerComponent.cpp:132-143 | on a client with a world manager the manager's dilation becomes the replicated value; the authority, or a world without a manager, leaves it alone |
| PlayerController.DilationReachesClient | Source/JoltNetworkPrediction/Private/JoltNetworkPredictionPlayerControllerComponent.cpp:123-143 | a dilation the server stores reaches the client's world manager within half of 1/10000 |
| PlayerController.AddInputToSend | Source/JoltNetworkPrediction/Private/JoltNetworkPredictionPlayerControllerComponent.cpp:167-171 | queuing appends exactly one input with the given id, size and bytes, keeping the earlier ones |
| PlayerController.SendServerRpc | Source/JoltNetworkPrediction/Private/JoltNetworkPredictionPlayerControllerComponent.cpp:68-72 | the RPC carries the frame, the interpolation time and exactly the queued inputs, and the queue is emptied |
| PlayerController.AddAll | Source/JoltNetworkPrediction/Private/JoltNetworkPredictionPlayerControllerComponent.cpp:167-171 | queuing several inputs changes nothing but the queue |
| PlayerController.SendCarriesQueuedInputs | Source/JoltNetworkPrediction/Private/JoltNetworkPredictionPlayerControllerComponent.cpp:68-72 | between two sends the batch is exactly the inputs queued since the last one, in order, and the queue is empty afterwards |
| InputService.InputKey | Source/JoltNetworkPrediction/Public/Services/JoltNetworkPredictionService_Input.inl:157 | comparing the uint32 input id with the int32 key takes the key's bit pattern, which is the key itself when non-negative |
| InputService.StoreInput | Source/JoltNetworkPrediction/Public/Services/JoltNetworkPredictionService_Input.inl:168-180 | storing an input keeps the buffer well formed and its capacity |
| InputService.StoreInputAtClientFrame | Source/JoltNetworkPrediction/Public/Services/JoltNetworkPredictionService_Input.inl:178-179 | the client frame holds the command and the interpolation time it arrived with |
| InputService.StoreInputFillsGap | Source/JoltNetworkPrediction/Public/Services/JoltNetworkPredictionService_Input.inl:168-176 | each skipped frame holds the last received frame's entry, frame 0's when nothing was received |
| InputService.StoreInputKeeps | Source/JoltNetworkPrediction/Public/Services/JoltNetworkPredictionService_Input.inl:168-176 | received frames within a capacity of the client frame keep their entries, and frame 0 is never overwritten by the gap fill |
| InputService.LastMatchIndex | Source/JoltNetworkPrediction/Public/Services/JoltNetworkPredictionService_Input.inl:155-160 | the result is the index of the last input carrying the key, or -1 exactly when none does |
| InputService.ReceiveInputs | Source/JoltNetworkPrediction/Public/Services/JoltNetworkPredictionService_Input.inl:155-186 | the batch loop keeps the buffer well formed and does not touch the consumed frame |
| InputService.ReceiveNoMatch | Source/JoltNetworkPrediction/Public/Services/JoltNetworkPredictionService_Input.inl:157-160 | a batch without an input for the simulation leaves its receive data unchanged |
| InputService.ReceiveLastWins | Source/JoltNetworkPrediction/Public/Services/JoltNetworkPredictionService_Input.inl:155-186 | with several inputs for one simulation the last one wins: the client frame holds its command and becomes the last received frame |
| InputService.ReceiveFillsGap | Source/JoltNetworkPrediction/Public/Services/JoltNetworkPredictionService_Input.inl:168-176 | once an input for the simulation arrives every skipped frame holds the last received frame's input |
| InputService.ReceiveKeepsReceived | Source/JoltNetworkPrediction/Public/Services/JoltNetworkPredictionService_Input.inl:168-176 | received frames within a capacity of the client frame are never disturbed by a batch |
| InputService.ReceiveForInstance | Source/JoltNetworkPrediction/Public/Services/JoltNetworkPredictionService_Input.inl:148-153 | a simulation not owned by the sending controller is left unchanged; the id and handler are always kept |
| InputService.OnFixedInputReceived | Source/JoltNetworkPrediction/Public/Services/JoltNetworkPredictionService_Input.inl:141-188 | every registered simulation is handled in turn, independently of the others |
| InputService.OnFixedInputReceivedSpec | Source/JoltNetworkPrediction/Public/Services/JoltNetworkPredictionService_Input.inl:141-188 | a simulation of another controller, or with no input in the batch, is untouched; otherwise its last matching input is stored at the client frame, which becomes its last received frame |
| InputService.BufferOffset | Source/JoltNetworkPrediction/Public/Services/JoltNetworkPredictionService_Input.inl:233-244 | the offset is INT8_MAX when either frame is unknown, and otherwise the number of buffered frames less the desired number |
| InputService.Decay | Source/JoltNetworkPrediction/Public/Services/JoltNetworkPredictionService_Input.inl:269 | the escalation factor lies between the 0.5 floor and 1 |
| InputService.OffsetDilation | Source/JoltNetworkPrediction/Public/Services/JoltNetworkPredictionService_Input.inl:266-272 | the dilation lies between 0.9 and 1.1 |
| InputService.ComputeDilation | Source/JoltNetworkPrediction/Public/Services/JoltNetworkPredictionService_Input.inl:230-278 | the dilation handed to the controller lies between 0.9 and 1.1 |
| InputService.DilationNeutral | Source/JoltNetworkPrediction/Public/Services/JoltNetworkPredictionService_Input.inl:230-278 | the dilation is exactly 1 when and only when dilation is disabled, a frame is unknown, or the buffer is at its desired depth |
| InputService.DilationDirection | Source/JoltNetworkPrediction/Public/Services/JoltNetworkPredictionService_Input.inl:266-272 | too much buffered input speeds the client up, too little slows it down |
| InputService.DilationAntisymmetric | Source/JoltNetworkPrediction/Public/Services/JoltNetworkPredictionService_Input.inl:266-272 | an excess and an equal shortfall move the dilation equally far from 1 |
| InputService.DilationMonotone | Source/JoltNetworkPrediction/Public/Services/JoltNetworkPredictionService_Input.inl:266-272 | a larger excess never gives a smaller dilation |
| InputService.EscalationMonotone | Source/JoltNetworkPrediction/Public/Services/JoltNetworkPredictionService_Input.inl:269-270 | the escalated offset, offset times decay, grows with the offset |
| InputService.NonNegativeEscalationMonotone | Source/JoltNetworkPrediction/Public/Services/JoltNetworkPredictionService_Input.inl:269-270 | the same for non-negative offsets |
| InputService.ProduceInput | Source/JoltNetworkPrediction/Public/Services/JoltNetworkPredictionService_Input.inl:205-284 | a simulation without a controller is skipped; otherwise its receive data records the controller's consumed frame, its pending input and interpolation time come from that frame's slot, and the controller gets the computed dilation |
| InputService.ReceivedInputIsConsumed | Source/JoltNetworkPrediction/Public/Services/JoltNetworkPredictionService_Input.inl:141-284 | an input received for a frame is the one the simulation consumes when the controller reaches that frame, with the interpolation time it arrived with |
| WorldManager.OnInputReceived | Source/JoltNetworkPrediction/Private/JoltNetworkPredictionWorldManager.cpp:121-141 | a null handler is ignored; otherwise the handler is registered, its last received frame becomes the later of it and the batch frame, and the simulations see the batch only when the frame is newer |
| WorldManager.ReceiveBatches | Source/JoltNetworkPrediction/Private/JoltNetworkPredictionWorldManager.cpp:121-141 | over several batches the handler's last received frame never decreases and ends at the newest frame that was delivered; with nothing delivered no simulation changes |
| WorldManager.FramesOf | Source/JoltNetworkPrediction/Private/JoltNetworkPredictionWorldManager.cpp:121-141 | the batches' frames, one per batch in order |
| WorldManager.DeliveredFrames | Source/JoltNetworkPrediction/Private/JoltNetworkPredictionWorldManager.cpp:131-139 | the delivered frames are batch frames newer than the starting last received frame, in strictly increasing order |
| WorldManager.DeliveredFramesUnfold | Source/JoltNetworkPrediction/Private/JoltNetworkPredictionWorldManager.cpp:131-139 | a batch is delivered exactly when its frame is newer than every frame seen before it |
| WorldManager.AckedLastWriteWins | Source/JoltNetworkPrediction/Private/JoltNetworkPredictionWorldManager.cpp:152-158 | per id the last pair in the batch wins, and an id outside the batch keeps what it had, including nothing |
| WorldManager.OnReceivedAckedData | Source/JoltNetworkPrediction/Private/JoltNetworkPredictionWorldManager.cpp:143-159 | without a handler connection nothing changes; otherwise only that connection's entry is found or added, and every other connection is untouched |
| WorldManager.AckedDataLastWins | Source/JoltNetworkPrediction/Private/JoltNetworkPredictionWorldManager.cpp:143-159 | the connection's entry for an id holds the frame of the last pair with that id, and other ids keep their frames |
| WorldManager.RollbackFrameFrom | Source/JoltNetworkPrediction/Private/JoltNetworkPredictionWorldManager.cpp:281-289 | the running minimum over the services' requests ignores INDEX_NONE and is at most every request |
| WorldManager.RollbackFrame | Source/JoltNetworkPrediction/Private/JoltNetworkPredictionWorldManager.cpp:281-289 | the rollback frame is INDEX_NONE exactly when no service asks for one, and otherwise the earliest frame any service asks for |
| WorldManager.RollbackFrameOrderFree | Source/JoltNetworkPrediction/Private/JoltNetworkPredictionWorldManager.cpp:281-289 | the order in which services are asked does not change the rollback frame |
| WorldManager.ResimStepAsWritten | Source/JoltNetworkPrediction/Private/JoltNetworkPredictionWorldManager.cpp:317-359 | a replayed frame runs the normal tick's step and service step for its local frame; on the first step only, the physics snapshot is restored under that local frame, and after stepping the state is saved under the local frame it started from |
| WorldManager.ResimStepAt | Source/JoltNetworkPrediction/Private/JoltNetworkPredictionWorldManager.cpp:317-371 | corrected step: the same step and service step, with the restore on the first step under the key the normal tick used for the start of the frame (frame + offset) and the save under the step's frame |
| WorldManager.ResimRange | Source/JoltNetworkPrediction/Private/JoltNetworkPredictionWorldManager.cpp:309-374 | the replay loop as written: one step per frame from the rollback frame up to the end frame, each keyed by its local frame, only the first flagged as first |
| WorldManager.Reconcile | Source/JoltNetworkPrediction/Private/JoltNetworkPredictionWorldManager.cpp:240-404 | the last offset catches up with the offset; a requested rollback frame before the pending frame replays every frame from it to the pending frame through the loop as written; a request at or after the pending frame replays nothing |
| WorldManager.ResimRangeCorrected | Source/JoltNetworkPrediction/Private/JoltNetworkPredictionWorldManager.cpp:309-374 | the corrected replay loop: one corrected step per frame from the rollback frame up to the end frame |
| WorldManager.ReconcileCorrected | Source/JoltNetworkPrediction/Private/JoltNetworkPredictionWorldManager.cpp:240-404 | the same rollback decision as Reconcile, replaying through the corrected loop |
| WorldManager.CorrectedReconcileChangesOnlyKeys | Source/JoltNetworkPrediction/Private/JoltNetworkPredictionWorldManager.cpp:317-359 | the correction changes only snapshot keys: both reconciles replay the same frames with the same steps, service steps and first-step flags |
| WorldManager.ReplayChainsToPending | Source/JoltNetworkPrediction/Private/JoltNetworkPredictionWorldManager.cpp:291-376 | the replay starts at the earliest requested frame, each step reads the frame the previous one wrote, the last writes the pending frame at the pending frame's sim time, and only the first is flagged |
| WorldManager.FixedTick | Source/JoltNetworkPrediction/Private/JoltNetworkPredictionWorldManager.cpp:424-566 | with fixed-tick services and a dilated step banked, exactly one step runs, the pending frame advances by one, the state after the step is saved under the step's frame and the bank is emptied; otherwise the pending frame stays |
| WorldManager.FixedTickSnapshotKeyed | Source/JoltNetworkPrediction/Private/JoltNetworkPredictionWorldManager.cpp:488-498 | the normal tick saves each physics state under the server frame at which it starts |
| WorldManager.ReplaySnapshotsKeyed | Source/JoltNetworkPrediction/Private/JoltNetworkPredictionWorldManager.cpp:332-360 | with corrected keys, a replay saves every snapshot under the key the normal tick uses and restores the key under which the rollback frame's start was saved |
| WorldManager.ResimAsWrittenMiskeys | Source/JoltNetworkPrediction/Private/JoltNetworkPredictionWorldManager.cpp:359 | with offset 0, the normal tick at frame 4 and the replay of frame 5 both save under key 5 though they hold different frames' states |
| WorldManager.RestoreAsWrittenMiskeys | Source/JoltNetworkPrediction/Private/JoltNetworkPredictionWorldManager.cpp:332-335 | with offset 5, the first replayed frame of a rollback to frame 8 restores key 8, which the normal tick filled with the start of frame 3; the corrected replay restores key 13, which holds the start of frame 8 |
| WorldManager.FixedTicksAtMostOnePerFrame | Source/JoltNetworkPrediction/Private/JoltNetworkPredictionWorldManager.cpp:436-563 | at most one step runs per engine frame, and exactly one when every engine frame brings at least a dilated step |
| WorldManager.FixedTickDropsSurplus | Source/JoltNetworkPrediction/Private/JoltNetworkPredictionWorldManager.cpp:562-563 | two steps' worth of engine time still runs one step and the surplus is dropped |
| WorldManager.SendRange | Source/JoltNetworkPrediction/Private/JoltNetworkPredictionWorldManager.cpp:536-557 | after a step the inputs of the last max(count, 1) frames before the pending frame, and none before 0, are sent |
| WorldManager.SendRangeMembership | Source/JoltNetworkPrediction/Private/JoltNetworkPredictionWorldManager.cpp:536-541 | a frame is sent exactly when it has been written and is among the last max(count, 1) |
| WorldManager.NewestFrameAlwaysSent | Source/JoltNetworkPrediction/Private/JoltNetworkPredictionWorldManager.cpp:536-541 | the newest written frame is always sent |
| WorldManager.HandlerCalls | Source/JoltNetworkPrediction/Private/JoltNetworkPredictionWorldManager.cpp:547-555 | each controller sends the frame, and the acked frames when any are pending |
| WorldManager.SendCallsCoverAndAckOnce | Source/JoltNetworkPrediction/Private/JoltNetworkPredictionWorldManager.cpp:541-557 | every controller sends every frame of the range, and acked frames go out only with the first frame, because the acked list is reset after it |
| WorldManager.VariableTick | Source/JoltNetworkPrediction/Private/JoltNetworkPredictionWorldManager.cpp:571-628 | the whole milliseconds banked become the step clamped to [1, 100], the pending frame records that delta, the next frame records the end time, and the pending frame advances by one |
| WorldManager.VariableTickBanksFraction | Source/JoltNetworkPrediction/Private/JoltNetworkPredictionWorldManager.cpp:578-580 | what stays banked is always less than a millisecond |
| WorldManager.VariableTickConservesTime | Source/JoltNetworkPrediction/Private/JoltNetworkPredictionWorldManager.cpp:578-585 | between the clamp bounds the step plus what stays banked is what was banked plus the engine time |
| WorldManager.VariableTickClampDropsTime | Source/JoltNetworkPrediction/Private/JoltNetworkPredictionWorldManager.cpp:582 | 250.5 ms banked runs a 100 ms step and keeps only half a millisecond |
| WorldManager.RunVariableTicks | Source/JoltNetworkPrediction/Private/JoltNetworkPredictionWorldManager.cpp:571-628 | independent ticks over several engine frames keep the tick state well formed |
| WorldManager.VariableTicksAdvanceTime | Source/JoltNetworkPrediction/Private/JoltNetworkPredictionWorldManager.cpp:571-628 | after n engine frames the pending frame has moved n on and its start time is between 1 and 100 ms per frame later |
| WorldManager.PreTick | Source/JoltNetworkPrediction/Private/JoltNetworkPredictionWorldManager.cpp:199-214 | the real step is 1000 over the rate, the integer step its truncation, and the dilated step the real step times the dilation unless dilation is disabled |
| WorldManager.InterpolationDelayMS | Source/JoltNetworkPrediction/Private/JoltNetworkPredictionWorldManager.cpp:1091-1105 | the delay is the buffered time of the preferred ticking policy |
| WorldManager.MaxRewindDuration | Source/JoltNetworkPrediction/Private/JoltNetworkPredictionWorldManager.cpp:1123-1133 | the maximum rewind is the configured rewind plus the interpolation delay plus one frame more than the desired input buffer |
| WorldManager.ClampRewindingTime | Source/JoltNetworkPrediction/Private/JoltNetworkPredictionWorldManager.cpp:1107-1121 | without a manager the target is returned as is; otherwise the result is no earlier than the target nor than the current time less the maximum rewind |
| WorldManager.ClampRewindingTimeIsLater | Source/JoltNetworkPrediction/Private/JoltNetworkPredictionWorldManager.cpp:1107-1121 | the clamped time is the later of the target and the earliest time the rewind limit allows |
| ServiceFlags.Index | Source/JoltNetworkPrediction/Public/Services/JoltNetworkPredictionInstanceData.h:13-51 | each service sits at a bit position below 24 |
| ServiceFlags.FromIndex | Source/JoltNetworkPrediction/Public/Services/JoltNetworkPredictionInstanceData.h:13-51 | every bit position below 24 belongs to exactly the service found there |
| ServiceFlags.IndexInjective | Source/JoltNetworkPrediction/Public/Services/JoltNetworkPredictionInstanceData.h:13-51 | different services sit at different bits |
| ServiceFlags.FlagIsOwnBit | Source/JoltNetworkPrediction/Public/Services/JoltNetworkPredictionInstanceData.h:22-50 | every service flag is a single bit, the service's own |
| ServiceFlags.AnyFixedBits | Source/JoltNetworkPrediction/Public/Services/JoltNetworkPredictionInstanceData.h:55 | ANY_FIXED is exactly bits 0 to 10 |
| ServiceFlags.BitRange | Source/JoltNetworkPrediction/Public/Services/JoltNetworkPredictionInstanceData.h:56 | the low n bits with the low m bits cleared, in 32-bit arithmetic, are exactly bits m to n-1 |
| ServiceFlags.GroupMasksAsRanges | Source/JoltNetworkPrediction/Public/Services/JoltNetworkPredictionInstanceData.h:55-56 | both helper masks are built from runs of low ones |
| ServiceFlags.AnyIndependentBits | Source/JoltNetworkPrediction/Public/Services/JoltNetworkPredictionInstanceData.h:56 | ANY_INDEPENDENT is exactly bits 11 to 23 |
| ServiceFlags.ServiceGroup | Source/JoltNetworkPrediction/Public/Services/JoltNetworkPredictionInstanceData.h:21-56 | a service is in exactly one group, the group its name says |
| ServiceFlags.GroupsDisjoint | Source/JoltNetworkPrediction/Public/Services/JoltNetworkPredictionInstanceData.h:55-56 | the two groups share no bit |
| ServiceFlags.AddFlag | Source/JoltNetworkPrediction/Public/Services/JoltNetworkPredictionInstanceData.h:59 | OR-ing in a flag adds exactly that service |
| ServiceFlags.MaskOf | Source/JoltNetworkPrediction/Public/Services/JoltNetworkPredictionInstanceData.h:59 | a mask built from a list holds exactly the listed services |
| ServiceFlags.NonzeroHasFlag | Source/JoltNetworkPrediction/Public/Services/JoltNetworkPredictionInstanceData.h:15 | a mask is non-zero exactly when it holds some service |
| ServiceFlags.HasAnyIff | Source/JoltNetworkPrediction/Public/Services/JoltNetworkPredictionServiceRegistry.h:207-220 | EnumHasAnyFlags with a group mask holds exactly when a service of that group is present |
| ServiceFlags.MaskMinus | Source/JoltNetworkPrediction/Public/Services/JoltNetworkPredictionServiceRegistry.h:90-91 | Mask & ~Other holds exactly the services of the first mask not in the second |
| ServiceFlags.NewInstanceData | Source/JoltNetworkPrediction/Public/Services/JoltNetworkPredictionInstanceData.h:63-72 | a fresh instance has no role and is subscribed to nothing |
| ServiceRegistry.ExpectedIff | Source/JoltNetworkPrediction/Public/Services/JoltNetworkPredictionServiceRegistry.h:86 | the registration assertion accepts exactly the non-empty masks that stay within one group |
| ServiceRegistry.VisitsOneGroup | Source/JoltNetworkPrediction/Public/Services/JoltNetworkPredictionServiceRegistry.h:201-259 | on a one-group mask ForEachService visits exactly the subscribed services |
| ServiceRegistry.MixedMaskVisitsFixedOnly | Source/JoltNetworkPrediction/Public/Services/JoltNetworkPredictionServiceRegistry.h:207-220 | a mask mixing the groups reaches only its fixed services |
| ServiceRegistry.SubMaskOneGroup | Source/JoltNetworkPrediction/Public/Services/JoltNetworkPredictionServiceRegistry.h:90-91 | part of a one-group mask is one-group too |
| ServiceRegistry.EmptyRegistry | Source/JoltNetworkPrediction/Public/Services/JoltNetworkPredictionServiceRegistry.h:176-197 | in a fresh registry no service has any instance |
| ServiceRegistry.ForEachService | Source/JoltNetworkPrediction/Public/Services/JoltNetworkPredictionServiceRegistry.h:201-259 | the visited services gain or lose the id, every other service and every other id is untouched |
| ServiceRegistry.RegisterInstance | Source/JoltNetworkPrediction/Public/Services/JoltNetworkPredictionServiceRegistry.h:83-110 | the instance's mask becomes the requested one, and no other id's membership changes |
| ServiceRegistry.RegisterLeavesSharedServices | Source/JoltNetworkPrediction/Public/Services/JoltNetworkPredictionServiceRegistry.h:87-99 | on re-registration a service both masks agree on is not touched |
| ServiceRegistry.RegisterAppliesDiff | Source/JoltNetworkPrediction/Public/Services/JoltNetworkPredictionServiceRegistry.h:87-99 | re-registration removes the id from exactly the services only the old mask named and adds it to those only the new mask names |
| ServiceRegistry.FirstRegistrationSubscribesAll | Source/JoltNetworkPrediction/Public/Services/JoltNetworkPredictionServiceRegistry.h:100-107 | a first registration subscribes the id to exactly the services of its mask |
| ServiceRegistry.RegisterKeepsConsistent | Source/JoltNetworkPrediction/Public/Services/JoltNetworkPredictionServiceRegistry.h:83-110 | if the id was in exactly its old mask's services, afterwards it is in exactly the new mask's |
| ServiceRegistry.MixedRegistrationExample | Source/JoltNetworkPrediction/Public/Services/JoltNetworkPredictionServiceRegistry.h:83-110 | a mask of FixedTick and IndependentLocalTick registers the id with FixedTick only |
| ServiceRegistry.ExampleMaskVisitsFixedOnly | Source/JoltNetworkPrediction/Public/Services/JoltNetworkPredictionServiceRegistry.h:207-220 | that mixed mask is valid and visits only its fixed service |
| ServiceRegistry.EmptyDataStore | Source/JoltNetworkPrediction/Public/Services/JoltNetworkPredictionInstanceData.h:184-199 | a new data store holds no instance in any of its maps |
| ServiceRegistry.UnregisterInstance | Source/JoltNetworkPrediction/Public/Services/JoltNetworkPredictionServiceRegistry.h:112-128 | the id is removed from every map of the store and every other entry is kept |
| ServiceRegistry.UnregisterLeavesNoService | Source/JoltNetworkPrediction/Public/Services/JoltNetworkPredictionServiceRegistry.h:112-128 | an instance registered consistently with a one-group mask leaves every service |
| ServiceRegistry.GetDataStore | Source/JoltNetworkPrediction/Public/Services/JoltNetworkPredictionServiceRegistry.h:134-156 | the array grows to hold the model id, an existing store is returned unchanged, a missing one is created empty, and other slots are kept |
| ServiceRegistry.GetDataStoreIdempotent | Source/JoltNetworkPrediction/Public/Services/JoltNetworkPredictionServiceRegistry.h:134-156 | a second request returns the same store and changes nothing |
| ServiceRegistry.GetDataStoreKeepsOthers | Source/JoltNetworkPrediction/Public/Services/JoltNetworkPredictionServiceRegistry.h:134-156 | a request for one model leaves every other model's store where it was |
| ModelDriver.HighestNetworkLod | Source/JoltNetworkPrediction/Public/JoltNetworkPredictionConfig.h:40-53 | the highest network LOD picked from a mask is always one of Interpolated, SimExtrapolate or ForwardPredict |
| ModelDriver.HighestLodIsHighestMember | Source/JoltNetworkPrediction/Public/JoltNetworkPredictionConfig.h:30-53 | for a valid non-empty LOD mask the picked LOD is in the mask and no higher LOD is |
| ModelDriver.GetCapabilities | Source/JoltNetworkPrediction/Public/JoltNetworkPredictionDriver.h:79-92 | every ticking policy is supported; a model without a simulation may only interpolate, one with a simulation gets the default capabilities |
| ModelDriver.GetCapabilitiesValid | Source/JoltNetworkPrediction/Public/JoltNetworkPredictionConfig.h:58-70 | capabilities are always non-empty masks of real LODs and ticking policies |
| ModelDriver.GetDefaultArchetype | Source/JoltNetworkPrediction/Public/JoltNetworkPredictionDriver.h:95-111 | the preferred ticking policy is chosen when supported, otherwise the supported policy mask itself |
| ModelDriver.DefaultArchetypeIsPreferred | Source/JoltNetworkPrediction/Public/JoltNetworkPredictionDriver.h:95-111 | with default capabilities the preferred Fixed or Independent policy is always kept |
| ModelDriver.ArchetypeFallsBackToSupported | Source/JoltNetworkPrediction/Public/JoltNetworkPredictionDriver.h:104-108 | a model that supports only Independent gets Independent when Fixed is preferred |
| ModelDriver.GetConfig | Source/JoltNetworkPrediction/Public/JoltNetworkPredictionDriver.h:114-145 | authority polls input only without a connection; the autonomous proxy polls every frame at its highest capable LOD; the simulated proxy is passive and takes the preferred LOD when capable, else its highest capable LOD |
| ModelDriver.ProxyLodIsCapable | Source/JoltNetworkPrediction/Public/JoltNetworkPredictionDriver.h:123-141 | a proxy's configured LOD is always one its capabilities allow |
| ModelDriver.NoSimulationInterpolates | Source/JoltNetworkPrediction/Public/JoltNetworkPredictionDriver.h:83-90 | a proxy of a model without a simulation is always configured to interpolate |
| ModelDriver.ShouldReconcilePair | Source/JoltNetworkPrediction/Public/JoltNetworkPredictionDriver.h:626-637 | a sync/aux pair reconciles exactly when the sync state or the aux state reports a mismatch |
| ModelDriver.VoidStatesNeverReconcile | Source/JoltNetworkPrediction/Public/JoltNetworkPredictionDriver.h:637 | a model whose sync and aux states are both void never reconciles |
| CueTraits.InvokerAllBits | Source/JoltNetworkPrediction/Public/JoltNetworkPredictionCueTraits.h:38-45 | the All invoker is exactly the Authority, Predict and SimExtrapolate bits |
| CueTraits.GetSimTickMask | Source/JoltNetworkPrediction/Public/JoltNetworkPredictionCueTraits.h:49-55 | the tick mask keeps the invoker's bits, adds Resimulate exactly when resimulation is allowed and Predict may invoke, and ResimExtrapolate exactly when it is allowed and SimExtrapolate may invoke |
| CueTraits.NoInvalidResimulate | Source/JoltNetworkPrediction/Public/JoltNetworkPredictionCueTraits.h:48-55 | no derived mask pairs a resimulate context with an invoker that cannot run it or without permission to resimulate |
| CueTraits.SelectTraits | Source/JoltNetworkPrediction/Public/JoltNetworkPredictionCueTraits.h:198-210 | a cue's own traits win; a cue without traits gets the default: invokable by all, no resimulate, not replicated |
| CueTraits.RequirementsOrdered | Source/JoltNetworkPrediction/Public/JoltNetworkPredictionCueTraits.h:233-238 | a cue that must serialize must also compare, and a cue without traits needs neither |
| CueTraits.DefaultCueTickMask | Source/JoltNetworkPrediction/Public/JoltNetworkPredictionCueTraits.h:88-94 | a default cue plays for authority, prediction and extrapolation but never during a resimulate |
| CueTraits.StrongCueTickMask | Source/JoltNetworkPrediction/Public/JoltNetworkPredictionCueTraits.h:142-147 | a strong cue replays on both resimulate contexts and needs serialization and comparison |
| ServiceSelection.SelectServiceMask | Source/JoltNetworkPrediction/Public/JoltNetworkPredictionWorldManager.h:392-582 | the service mask an instance registers never mixes groups: fixed archetypes get only fixed services, independent ones only independent ones, any other ticking mode none |
| ServiceSelection.FixedSelectionIsFixed | Source/JoltNetworkPrediction/Public/JoltNetworkPredictionWorldManager.h:484-582 | every service chosen for a fixed archetype is a fixed-tick service |
| ServiceSelection.IndependentSelectionIsIndependent | Source/JoltNetworkPrediction/Public/JoltNetworkPredictionWorldManager.h:394-482 | every service chosen for an independent archetype is an independent-tick service |
| ServiceSelection.SelectedFlags | Source/JoltNetworkPrediction/Public/JoltNetworkPredictionWorldManager.h:392-582 | a flag is set in the mask exactly when its service was OR-ed in |
| ServiceSelection.FixedAutonomousProxyServices | Source/JoltNetworkPrediction/Public/JoltNetworkPredictionWorldManager.h:512-527 | a fixed autonomous proxy polls local input and sends it to the server, never takes remote input, and when forward predicted also rolls back and ticks physics |
| ServiceSelection.FixedAutonomousList | Source/JoltNetworkPrediction/Public/JoltNetworkPredictionWorldManager.h:512-576 | the same as a list of OR-ed services |
| ServiceSelection.FixedAuthorityServices | Source/JoltNetworkPrediction/Public/JoltNetworkPredictionWorldManager.h:495-553 | a fixed authority with a simulation ticks, steps physics and finalizes, takes input remotely exactly when it has a net connection and locally otherwise, and never rolls back or interpolates |
| ServiceSelection.FixedAuthorityList | Source/JoltNetworkPrediction/Public/JoltNetworkPredictionWorldManager.h:495-553 | the same as a list of OR-ed services |
| ServiceSelection.FixedAuthorityWithoutSimulation | Source/JoltNetworkPrediction/Public/JoltNetworkPredictionWorldManager.h:497-552 | a fixed authority without a simulation subscribes to nothing |
| ServiceSelection.FixedInterpolatedProxyServices | Source/JoltNetworkPrediction/Public/JoltNetworkPredictionWorldManager.h:577-579 | an interpolated fixed simulated proxy subscribes to exactly FixedInterpolate; an interpolated autonomous proxy to exactly local input, server RPC and interpolation |
| ServiceSelection.FixedInterpolatedLists | Source/JoltNetworkPrediction/Public/JoltNetworkPredictionWorldManager.h:512-579 | the same as the exact lists of OR-ed services |
| ServiceSelection.IndependentSimulatedProxyServices | Source/JoltNetworkPrediction/Public/JoltNetworkPredictionWorldManager.h:474-480 | an independent simulated proxy subscribes to exactly IndependentInterpolate |
| ServiceSelection.FixedSimExtrapolateProxyIdle | Source/JoltNetworkPrediction/Public/JoltNetworkPredictionWorldManager.h:557-580 | a fixed simulated proxy at the SimExtrapolate LOD subscribes to nothing, since the LOD switch has no branch for it |
| ServiceSelection.SmoothingNeedsSettingAndModel | Source/JoltNetworkPrediction/Public/JoltNetworkPredictionWorldManager.h:547-550 | fixed smoothing is selected only for a simulation that finalizes a smoothing frame with the setting on |
| ServiceSelection.SmoothingOnlyFromTick | Source/JoltNetworkPrediction/Public/JoltNetworkPredictionWorldManager.h:564-573 | the same on the list of OR-ed services |
| ServiceSelection.SelectedMaskFullyVisited | Source/JoltNetworkPrediction/Public/JoltNetworkPredictionWorldManager.h:597-601 | the registry visits exactly the selected services it implements, because the mask never mixes groups |
| ServiceSelection.CueReceiveTarget | Source/JoltNetworkPrediction/Public/JoltNetworkPredictionWorldManager.h:584-595 | the authority's cue dispatcher is left alone; an interpolating proxy accepts Interpolators cues; any other proxy accepts the cues for its own role |
| ServiceSelection.InterpolateTest | Source/JoltNetworkPrediction/Public/JoltNetworkPredictionWorldManager.h:587 | the two-flag any-flag test is the disjunction of the single-flag tests |
| ServiceSelection.InterpolatedProxyCueTarget | Source/JoltNetworkPrediction/Public/JoltNetworkPredictionWorldManager.h:577-595 | an interpolated fixed proxy accepts Interpolators cues |
| ServiceSelection.PredictedProxyCueTarget | Source/JoltNetworkPrediction/Public/JoltNetworkPredictionWorldManager.h:559-595 | a forward-predicted fixed proxy accepts the cues meant for its role |
| ServiceSelection.IndependentProxyCueTarget | Source/JoltNetworkPrediction/Public/JoltNetworkPredictionWorldManager.h:474-595 | an independent simulated proxy accepts Interpolators cues |
| ServiceSelection.ConfiguredView | Source/JoltNetworkPrediction/Public/JoltNetworkPredictionWorldManager.h:394-491 | in fixed mode the view reads the pending server frame and the buffer's pending local frame; in independent mode the view and buffer frames coincide, and on a remotely controlled authority both are the server-receive pending frame |
| ServiceSelection.CarryOverAsWritten | Source/JoltNetworkPrediction/Public/JoltNetworkPredictionWorldManager.h:620-636 | keyed by the view's server frames, a reconfigured instance whose view frame moved copies the old view frame's entry to the new one; a new instance or one without state is left unchanged |
| ServiceSelection.CarryOver | Source/JoltNetworkPrediction/Public/JoltNetworkPredictionWorldManager.h:620-636 | a reconfigured instance copies the previous pending buffer entry into the entry its view now reads and changes no other entry |
| ServiceSelection.IndependentCarryOverAgrees | Source/JoltNetworkPrediction/Public/JoltNetworkPredictionWorldManager.h:394-401 | in independent mode the two carry-overs agree |
| ServiceSelection.CarryOverAsWrittenMissesView | Source/JoltNetworkPrediction/Public/JoltNetworkPredictionWorldManager.h:486-490 | with fixed offset 5 the server-frame-keyed carry-over leaves the entry the view reads unchanged |
| InstanceLifecycle.CreateSimulationID | Source/JoltNetworkPrediction/Public/JoltNetworkPredictionWorldManager.h:41-44 | a client ID comes from the temporary counter, which then moves down, a server ID from the spawn counter, which then moves up; from valid counters client IDs lie below INDEX_NONE and server IDs above 0 |
| InstanceLifecycle.IssueIds | Source/JoltNetworkPrediction/Public/JoltNetworkPredictionWorldManager.h:41-44 | a run of ID requests hands out client IDs inside the range the temporary counter swept and server IDs inside the range the spawn counter swept |
| InstanceLifecycle.IssuedIdsDistinct | Source/JoltNetworkPrediction/Public/JoltNetworkPredictionWorldManager.h:41-44 | from the initial counters every issued ID is distinct, no client ID is INDEX_NONE or a server ID, and no server ID is 0 |
| InstanceLifecycle.RemapClientSimulationID | Source/JoltNetworkPrediction/Public/JoltNetworkPredictionWorldManager.h:47-56 | the server ID takes over the record kept under the client ID (a default one if there was none), the client ID's entry is gone and every other entry is untouched |
| InstanceLifecycle.RemapRoundTrip | Source/JoltNetworkPrediction/Public/JoltNetworkPredictionWorldManager.h:47-56 | remapping to an unused ID and back restores the instance map |
| InstanceLifecycle.RemapKeepsStoreValid | Source/JoltNetworkPrediction/Public/JoltNetworkPredictionWorldManager.h:47-56 | a remap keeps every recorded service mask valid |
| InstanceLifecycle.RegisterKeepsConsistentWhen | Source/JoltNetworkPrediction/Public/JoltNetworkPredictionWorldManager.h:597-601 | registering a one-group mask over a one-group mask leaves the registry agreeing with the new mask |
| InstanceLifecycle.UnregisterLeavesNoServiceWhen | Source/JoltNetworkPrediction/Public/JoltNetworkPredictionWorldManager.h:71-76 | unregistering an instance whose registry agrees with its mask leaves it in no service |
| InstanceLifecycle.RegisterNow | Source/JoltNetworkPrediction/Public/JoltNetworkPredictionWorldManager.h:597-601 | an unlocked register records the mask in the instance record and changes nothing else of the store or the deferred calls |
| InstanceLifecycle.UnregisterNow | Source/JoltNetworkPrediction/Public/JoltNetworkPredictionWorldManager.h:71-76 | an unlocked unregister drops the ID from every map of the store and leaves the deferred calls alone |
| InstanceLifecycle.ConfigureRegistration | Source/JoltNetworkPrediction/Public/JoltNetworkPredictionWorldManager.h:597-618 | unlocked, the instance is registered with its selected services at once; locked, a deferred register is queued and its handle replaces any earlier one for the ID |
| InstanceLifecycle.ConfigureRegistrationFrame | Source/JoltNetworkPrediction/Public/JoltNetworkPredictionWorldManager.h:597-618 | configuring one ID touches nothing of any other ID |
| InstanceLifecycle.UnregisterInstance | Source/JoltNetworkPrediction/Public/JoltNetworkPredictionWorldManager.h:71-96 | unlocked, the ID leaves its services and the store at once; locked, a deferred unregister is queued and nothing else changes |
| InstanceLifecycle.UnregisterInstanceFrame | Source/JoltNetworkPrediction/Public/JoltNetworkPredictionWorldManager.h:71-96 | unregistering one ID touches nothing of any other ID |
| InstanceLifecycle.Invoke | Source/JoltNetworkPrediction/Public/JoltNetworkPredictionWorldManager.h:79-94 | a deferred unregister cancels the ID's pending register and drops its handle; every lambda drops the handle of its ID; no other lambda is cancelled |
| InstanceLifecycle.InvokeFrame | Source/JoltNetworkPrediction/Public/JoltNetworkPredictionWorldManager.h:79-94 | one deferred lambda touches nothing of any other ID |
| InstanceLifecycle.Broadcast | Source/JoltNetworkPrediction/Private/JoltNetworkPredictionWorldManager.cpp:401-403 | the broadcast runs the deferred lambdas in reverse and skips cancelled ones; afterwards no handle names a position it passed |
| InstanceLifecycle.BroadcastKeepsIdInv | Source/JoltNetworkPrediction/Private/JoltNetworkPredictionWorldManager.cpp:401-403 | a whole broadcast keeps the registry in agreement with each ID's record |
| InstanceLifecycle.BroadcastUnregisters | Source/JoltNetworkPrediction/Public/JoltNetworkPredictionWorldManager.h:79-94 | once a broadcast reaches an unregister of an ID nothing of the ID is left in the store |
| InstanceLifecycle.FlushAsWritten | Source/JoltNetworkPrediction/Private/JoltNetworkPredictionWorldManager.cpp:401-403 | the flush releases the lock and leaves no deferred call and no pending handle |
| InstanceLifecycle.Flush | Source/JoltNetworkPrediction/Public/JoltNetworkPredictionWorldManager.h:607-617 | the corrected flush also leaves no deferred call and no pending handle |
| InstanceLifecycle.FlushUnregisters | Source/JoltNetworkPrediction/Public/JoltNetworkPredictionWorldManager.h:83-93 | a locked section that unregisters an ID leaves nothing of it after either flush, whatever was configured for it before or after |
| InstanceLifecycle.BroadcastAppliesLatest | Source/JoltNetworkPrediction/Public/JoltNetworkPredictionWorldManager.h:605-617 | under the corrected flush the ID's latest registration takes effect and later lambdas leave it |
| InstanceLifecycle.FlushAppliesLatestMask | Source/JoltNetworkPrediction/Public/JoltNetworkPredictionWorldManager.h:605-617 | the corrected flush leaves an ID configured several times in one locked section with its latest mask, as the unlocked path would |
| InstanceLifecycle.FlushAsWrittenKeepsStaleMask | Source/JoltNetworkPrediction/Private/JoltNetworkPredictionWorldManager.cpp:401-403 | two configurations of one ID in one locked section end with the first mask under the reverse broadcast and with the second under the corrected flush |
| InstanceLifecycle.SampleAtTime | Source/JoltNetworkPrediction/Public/JoltNetworkPredictionWorldManager.h:273-313 | no answer without a frame buffer; otherwise a blend of two consecutive frames whose fraction lies strictly inside the tolerance band, or a single frame within tolerance of the time |
| InstanceLifecycle.SampleBracketsTime | Source/JoltNetworkPrediction/Public/JoltNetworkPredictionWorldManager.h:287-311 | a blend's two frames are the step boundaries on either side of the time |
| InstanceLifecycle.SampleOnBoundary | Source/JoltNetworkPrediction/Public/JoltNetworkPredictionWorldManager.h:304-308 | a time exactly on a step boundary reads that frame alone |
| LagCompRegistration.TickTimeMS | Source/JoltNetworkPrediction/Private/JoltNetworkPredictionWorldManager.cpp:893 | the tick length is the whole number of milliseconds in one fixed step, rounded down |
| LagCompRegistration.HistoryCoversRewind | Source/JoltNetworkPrediction/Private/JoltNetworkPredictionWorldManager.cpp:892-897 | the history size covers both the buffered-history time and the whole supported rewind window (rewind, interpolation buffer, buffered inputs and ten safety ticks) to within one tick |
| LagCompRegistration.DefaultHistorySize | Source/JoltNetworkPrediction/Public/JoltNetworkPredictionSettings.h:30-87 | with the default settings a tick is 16 ms and a history holds 62 entries |
| LagCompRegistration.Register | Source/JoltNetworkPrediction/Private/JoltNetworkPredictionWorldManager.cpp:879-902 | a null component is ignored; under the lock it is queued once; otherwise a new component gets its history size and is appended, and a registered one changes nothing |
| LagCompRegistration.Unregister | Source/JoltNetworkPrediction/Private/JoltNetworkPredictionWorldManager.cpp:904-912 | under the lock the request (even a null one) is queued once; otherwise every occurrence of the component leaves the registered list and nothing else does |
| LagCompRegistration.RemoveAllNoDuplicates | Source/JoltNetworkPrediction/Private/JoltNetworkPredictionWorldManager.cpp:911 | removing a component keeps the registered list free of duplicates |
| LagCompRegistration.RegistrationKeepsValid | Source/JoltNetworkPrediction/Private/JoltNetworkPredictionWorldManager.cpp:879-912 | register and unregister keep every component registered once, with its history |
| LagCompRegistration.RegistrationKeepsValidWhen | Source/JoltNetworkPrediction/Private/JoltNetworkPredictionWorldManager.cpp:879-912 | the same, for any registry given as valid |
| LagCompRegistration.Lock | Source/JoltNetworkPrediction/Public/JoltNetworkPredictionWorldManager.h:327-331 | taking the lock raises the counter and changes nothing else |
| LagCompRegistration.ApplyRemoves | Source/JoltNetworkPrediction/Public/JoltNetworkPredictionWorldManager.h:337-341 | applying queued removals leaves registered exactly the components that were registered and not queued for removal |
| LagCompRegistration.ApplyAdds | Source/JoltNetworkPrediction/Public/JoltNetworkPredictionWorldManager.h:343-347 | applying queued additions leaves registered exactly the components that were registered or queued, and keeps existing histories |
| LagCompRegistration.Unlock | Source/JoltNetworkPrediction/Public/JoltNetworkPredictionWorldManager.h:332-349 | an inner release only lowers the counter; the outermost release applies the removals, then the additions, and empties both queues |
| LagCompRegistration.LockUnlockRoundTrip | Source/JoltNetworkPrediction/Public/JoltNetworkPredictionWorldManager.h:325-349 | taking and releasing a nested lock restores the registry |
| LagCompRegistration.ApplyRequests | Source/JoltNetworkPrediction/Private/JoltNetworkPredictionWorldManager.cpp:879-912 | under the lock a component's registration calls only grow the queues, by exactly the calls made |
| LagCompRegistration.VisitFrom | Source/JoltNetworkPrediction/Private/JoltNetworkPredictionWorldManager.cpp:947-998 | the component loop keeps the lock counter and the registry's validity and visits at most the remaining positions |
| LagCompRegistration.LockedVisitSeesList | Source/JoltNetworkPrediction/Private/JoltNetworkPredictionWorldManager.cpp:947-998 | while the lock is held the loop visits exactly the registered components from its position on and the list does not move |
| LagCompRegistration.LockedVisitQueues | Source/JoltNetworkPrediction/Private/JoltNetworkPredictionWorldManager.cpp:947-998 | under the lock the loop only queues: the pending lists gain exactly the calls the components made |
| LagCompRegistration.ComponentLoopAsWritten | Source/JoltNetworkPrediction/Private/JoltNetworkPredictionWorldManager.cpp:945-947 | the loop under a lock that ends before the loop keeps the counter and the registry's validity |
| LagCompRegistration.ComponentLoop | Source/JoltNetworkPrediction/Public/JoltNetworkPredictionWorldManager.h:325-349 | with the lock held for the whole loop every registered component is visited |
| LagCompRegistration.ComponentLoopAppliesRequests | Source/JoltNetworkPrediction/Public/JoltNetworkPredictionWorldManager.h:332-349 | after the loop a component is registered exactly when some work registered it, or it was registered and no work unregistered it |
| LagCompRegistration.AsWrittenLoopSkipsComponent | Source/JoltNetworkPrediction/Private/JoltNetworkPredictionWorldManager.cpp:1008-1010 | a component whose work unregisters it makes the loop under the temporary lock skip the next one; with the lock held both are visited |
| LagCompRegistration.RewindActors | Source/JoltNetworkPrediction/Private/JoltNetworkPredictionWorldManager.cpp:914-999 | no requester, a standalone game or an empty registry rewinds nothing and changes nothing |
| LagCompRegistration.UnwindActors | Source/JoltNetworkPrediction/Private/JoltNetworkPredictionWorldManager.cpp:1002-1007 | an empty registry unwinds nothing and changes nothing |
| LagCompHistory.Capacity | Source/JoltNetworkPrediction/Public/JoltNetworkPredictionLagCompensationData.h:90-92 | the ring's capacity is the least power of two at or above the requested size raised to 2 |
| LagCompHistory.View | Source/JoltNetworkPrediction/Public/JoltNetworkPredictionLagCompensationData.h:236-241 | the logical view lists the saved states from oldest to newest, each read from its ring slot |
| LagCompHistory.MaskIsMod | Source/JoltNetworkPrediction/Public/JoltNetworkPredictionLagCompensationData.h:239-240 | masking a 32-bit index with capacity minus one is reduction modulo the power-of-two capacity |
| LagCompHistory.MaskedSlot | Source/JoltNetworkPrediction/Public/JoltNetworkPredictionLagCompensationData.h:236-248 | the two masked 32-bit additions that find a logical index amount to one addition modulo the capacity |
| LagCompHistory.GetAt | Source/JoltNetworkPrediction/Public/JoltNetworkPredictionLagCompensationData.h:236-241 | logical index i below the count reads the i-th oldest saved state |
| LagCompHistory.Last | Source/JoltNetworkPrediction/Public/JoltNetworkPredictionLagCompensationData.h:224-228 | on a non-empty history Last reads the newest saved state |
| LagCompHistory.LastOfEmptyIsUnset | Source/JoltNetworkPrediction/Public/JoltNetworkPredictionLagCompensationData.h:224-228 | on an empty history Last reads an unset slot |
| LagCompHistory.NewHistory | Source/JoltNetworkPrediction/Public/JoltNetworkPredictionLagCompensationData.h:90-98 | a new history is empty, holds at least the requested size and at least 2, has no cutoff, and keeps the requested data type only if it derives from the base state type |
| LagCompHistory.WriteAppends | Source/JoltNetworkPrediction/Public/JoltNetworkPredictionLagCompensationData.h:119-138 | writing at the head appends the state; in a full ring the oldest entry drops out and the count stays at the capacity |
| LagCompHistory.SlotInjective | Source/JoltNetworkPrediction/Public/JoltNetworkPredictionLagCompensationData.h:236-241 | distinct logical positions map to distinct ring slots |
| LagCompHistory.ReplaceEntry | Source/JoltNetworkPrediction/Public/JoltNetworkPredictionLagCompensationData.h:243-248 | writing through a logical position changes that entry alone |
| LagCompHistory.Add | Source/JoltNetworkPrediction/Public/JoltNetworkPredictionLagCompensationData.h:108-153 | a state not later than the newest (or nearly at its time) is ignored; otherwise it is appended, dropping the oldest when full |
| LagCompHistory.AddCutBeforeStop | Source/JoltNetworkPrediction/Public/JoltNetworkPredictionLagCompensationData.h:140-146 | the corrected add appends exactly as Add does |
| LagCompHistory.AddKeepsCutoffOnEntry | Source/JoltNetworkPrediction/Public/JoltNetworkPredictionLagCompensationData.h:125-134 | a state that allows rewinding further keeps the cutoff on the same saved state, sliding down with the entries and dropped when its entry is overwritten |
| LagCompHistory.AddStopCutoffAsWritten | Source/JoltNetworkPrediction/Public/JoltNetworkPredictionLagCompensationData.h:140-146 | a stop state added to a full ring puts the cutoff on the stop state itself instead of the entry before it |
| LagCompHistory.AddCutsBeforeStop | Source/JoltNetworkPrediction/Public/JoltNetworkPredictionLagCompensationData.h:140-146 | with the corrected cutoff a stop state always puts it on the newest entry before it, and only an empty history has none |
| LagCompHistory.GetLatestOrAddCopy | Source/JoltNetworkPrediction/Public/JoltNetworkPredictionLagCompensationData.h:155-203 | a time not later than the newest returns a copy of the newest and adds nothing; otherwise a default state stamped with the time is appended and a copy returned, with the cutoff only sliding |
| LagCompHistory.WriteToLatestState | Source/JoltNetworkPrediction/Public/JoltNetworkPredictionLagCompensationData.h:205-220 | the count never changes and an empty history is left as it is |
| LagCompHistory.WriteToLatestReplacesNewest | Source/JoltNetworkPrediction/Public/JoltNetworkPredictionLagCompensationData.h:205-220 | only the newest entry can change, and only to a state nearly at its time; a newest entry that stops rewinding moves the cutoff to the position before it, or 0 |
| LagCompHistory.AddKeepsTimesIncreasing | Source/JoltNetworkPrediction/Public/JoltNetworkPredictionLagCompensationData.h:110-118 | Add keeps the saved times strictly increasing |
| LagCompHistory.GetLatestOrAddCopyKeepsTimesIncreasing | Source/JoltNetworkPrediction/Public/JoltNetworkPredictionLagCompensationData.h:155-170 | GetLatestOrAddCopy keeps the saved times strictly increasing |
| LagCompHistory.WriteToLatestKeepsTimesIncreasing | Source/JoltNetworkPrediction/Public/JoltNetworkPredictionLagCompensationData.h:205-220 | WriteToLatestState keeps the times increasing when the written time is not before the newest |
| LagCompHistory.LookupEntries | Source/JoltNetworkPrediction/Private/JoltNetworkPredictionLagCompensationData.cpp:23-98 | nothing for an empty history; the cutoff entry for a time before the cutoff; the newest or oldest entry within 1 ms of either end; otherwise a blend of two consecutive entries that bracket the time |
| LagCompHistory.GetStateAtTime | Source/JoltNetworkPrediction/Private/JoltNetworkPredictionLagCompensationData.cpp:23-98 | the lookup over the history: nothing exactly when empty, the cutoff when it hits, and a blend whose two entries bracket the time when the times increase |
| LagCompHistory.LerpEnds | Source/JoltNetworkPrediction/Private/JoltNetworkPredictionLagCompensationData.cpp:7-21 | weight 0 gives the earlier state (its location unless across a teleport) and weight 1 the later one |
| LagCompHistory.LerpSnapsAcrossTeleport | Source/JoltNetworkPrediction/Private/JoltNetworkPredictionLagCompensationData.cpp:9-13 | across a teleport the blended location is the later one, whatever the weight |
| LagCompHistory.LerpOfSameState | Source/JoltNetworkPrediction/Private/JoltNetworkPredictionLagCompensationData.cpp:7-21 | blending a state with itself keeps its location, extent and rewind flag |
| RollbackService.CopyInputToPending | Source/JoltNetworkPrediction/Public/Services/JoltNetworkPredictionService_Rollback.inl:124-133 | a simulated proxy that stays out of the rollback gets the received input in its pending frame and nothing else of that frame changes |
| RollbackService.QueryRollbackUnforced | Source/JoltNetworkPrediction/Public/Services/JoltNetworkPredictionService_Rollback.inl:67-145 | without a forced reconcile the rollback frame is the earliest local frame among visited slots whose states mismatch (none when none does or reconciles are skipped); every visited slot is marked and its update bit cleared; only a visited simulated proxy that stays out gets its pending input |
| RollbackService.QueryRollbackIsEarliestRequest | Source/JoltNetworkPrediction/Public/Services/JoltNetworkPredictionService_Rollback.inl:103-123 | the rollback frame is INDEX_NONE exactly when no visited slot mismatches, and otherwise the local frame of a mismatching slot no later than any other's |
| RollbackService.SkipReconcileSuppressesRequests | Source/JoltNetworkPrediction/Public/Services/JoltNetworkPredictionService_Rollback.inl:120-123 | skipping reconciles suppresses every request a forced reconcile does not make |
| RollbackService.ForcedReconcile | Source/JoltNetworkPrediction/Public/Services/JoltNetworkPredictionService_Rollback.inl:88-102 | a forced reconcile applies to the first visited slot only and then switches itself off; that slot asks for its local frame less the extra frames; with no visited slot nothing happens |
| RollbackService.ForcedFirstVisit | Source/JoltNetworkPrediction/Public/Services/JoltNetworkPredictionService_Rollback.inl:88-123 | for a first visited slot the forced frame is the local frame less the non-negative extra frames, later mismatches can only bring it earlier, and the force switch ends off |
| RollbackService.Injected | Source/JoltNetworkPrediction/Public/Services/JoltNetworkPredictionService_Rollback.inl:204-213 | the corrected frame takes the received state, and the received input for a simulated proxy only |
| RollbackService.Corrected | Source/JoltNetworkPrediction/Public/Services/JoltNetworkPredictionService_Rollback.inl:203-213 | a correction rewrites its frame's slot and leaves every other slot of the buffer unchanged |
| RollbackService.ApplyCorrectionInjects | Source/JoltNetworkPrediction/Public/Services/JoltNetworkPredictionService_Rollback.inl:189-225 | exactly the marked slots due on the frame leave the rollback set and get the correction injected, nothing else changes, and they are pushed to the scene exactly when flushing |
| RollbackService.ApplyCorrectionAtMostOnce | Source/JoltNetworkPrediction/Public/Services/JoltNetworkPredictionService_Rollback.inl:189-225 | each correction is injected at most once: a second pass on the same frame changes nothing and pushes nothing |
| RollbackService.PreStepRollbackRestores | Source/JoltNetworkPrediction/Public/Services/JoltNetworkPredictionService_Rollback.inl:147-177 | the first replayed frame restores every managed slot whether corrected or not; a later frame restores exactly the slots corrected on it; either way the due corrections are injected |
| RollbackService.ReplayStep | Source/JoltNetworkPrediction/Public/Services/JoltNetworkPredictionService_Rollback.inl:317-319 | each resimulated step produces the frame after its input frame |
| RollbackService.Replay | Source/JoltNetworkPrediction/Public/Services/JoltNetworkPredictionService_Rollback.inl:307-327 | replaying frames [frame, end) ticks once per frame, in order, each tick reading its input frame's step and ending at its end time |
| RollbackService.ReconcileSlotReplays | Source/JoltNetworkPrediction/Public/Services/JoltNetworkPredictionService_Rollback.inl:283-328 | a mismatch overwrites the server frame with the received state, pushes it, and resimulates each frame up to the pending frame in order; a match changes nothing |
| RollbackService.ReconcileVisitsInOrder | Source/JoltNetworkPrediction/Public/Services/JoltNetworkPredictionService_Rollback.inl:272-333 | the independent reconcile visits managed slots with fresh data in slot order, replays each mismatching one, leaves every other buffer untouched and clears the managed update bits |
| RollbackService.QueryRollback | Source/JoltNetworkPrediction/Public/Services/JoltNetworkPredictionService_Rollback.inl:67-145 | the query keeps the stored frames well formed and never alters the received data; the frame it picks is stated by the lemmas above |
| RollbackService.ApplyCorrection | Source/JoltNetworkPrediction/Public/Services/JoltNetworkPredictionService_Rollback.inl:189-225 | applying corrections keeps the stored frames well formed and leaves the received data and the update bits alone |
| RollbackService.PreStepRollback | Source/JoltNetworkPrediction/Public/Services/JoltNetworkPredictionService_Rollback.inl:147-177 | the pre-step keeps the stored frames well formed and never alters the received data |
| RollbackService.ReconcileOne | Source/JoltNetworkPrediction/Public/Services/JoltNetworkPredictionService_Rollback.inl:283-328 | one slot of the independent loop keeps the store well formed and readable, and adds exactly that slot's own events |
| RollbackService.Reconcile | Source/JoltNetworkPrediction/Public/Services/JoltNetworkPredictionService_Rollback.inl:272-333 | the independent reconcile keeps the stored frames well formed and never alters the received data |
| PhysicsTick.GetTickContext | Source/JoltNetworkPrediction/Public/Services/JoltNetworkPredictionService_PhysicsTick.inl:148-181 | outside a resimulation the authority ticks as authority and both proxies predict; in a resimulation both proxies resimulate; any other role gets no context |
| PhysicsTick.TickInstanceWritesOutput | Source/JoltNetworkPrediction/Public/Services/JoltNetworkPredictionService_PhysicsTick.inl:132-144 | the output frame takes the input frame's command exactly when the tick copies input (always, or for a simulated proxy during a resimulation) and the simulation's state; other frames keep their contents |
| PhysicsTick.TickLocal | Source/JoltNetworkPrediction/Public/Services/JoltNetworkPredictionService_PhysicsTick.inl:119-146 | every registered instance ticks the same step |
| PhysicsTick.ResimContextsAreResimulate | Source/JoltNetworkPrediction/Public/Services/JoltNetworkPredictionService_PhysicsTick.inl:148-181 | a resimulation never predicts or ticks as authority, and a normal tick never resimulates |
| PhysicsTick.TruncToInt | Source/JoltNetworkPrediction/Public/Services/JoltNetworkPredictionService_PhysicsTick.inl:283 | the banked time converted to int32 drops its fraction toward zero |
| PhysicsTick.SnapNearlyZero | Source/JoltNetworkPrediction/Public/Services/JoltNetworkPredictionService_PhysicsTick.inl:297-301 | a nearly-zero leftover snaps to zero, moving the value by at most the tolerance |
| PhysicsTick.CommandMS | Source/JoltNetworkPrediction/Public/Services/JoltNetworkPredictionService_PhysicsTick.inl:281 | a command's step is its delta clamped to [1, 200] ms, and an in-range delta is kept |
| PhysicsTick.TickCommand | Source/JoltNetworkPrediction/Public/Services/JoltNetworkPredictionService_PhysicsTick.inl:294-320 | one consumed command spends its time, advances the pending frame and simulation time by its step, and ticks a step that ends at the new frame |
| PhysicsTick.ConsumeOneAccounts | Source/JoltNetworkPrediction/Public/Services/JoltNetworkPredictionService_PhysicsTick.inl:270-326 | one look at a command keeps the time accounting, consumes at most that command and keeps banked time non-negative; the loop stops on the sixth tick |
| PhysicsTick.ConsumeLoopAccounts | Source/JoltNetworkPrediction/Public/Services/JoltNetworkPredictionService_PhysicsTick.inl:265-326 | at most six steps and 200 ms per frame, pending frame and time advanced by exactly what was ticked, consumption never past the last received frame, banked time non-negative |
| PhysicsTick.ConsumeLoopTicks | Source/JoltNetworkPrediction/Public/Services/JoltNetworkPredictionService_PhysicsTick.inl:270-326 | the loop ticks exactly the non-dropped commands it consumed, in order |
| PhysicsTick.ClientTickAsWritten | Source/JoltNetworkPrediction/Public/Services/JoltNetworkPredictionService_PhysicsTick.inl:270-286 | with the pre-increment, a loop stopped for lack of time has already consumed a non-dropped command it did not tick |
| PhysicsTick.AsWrittenConsumesUnticked | Source/JoltNetworkPrediction/Public/Services/JoltNetworkPredictionService_PhysicsTick.inl:270-286 | a 10 ms engine frame consumes a waiting 16 ms command without ticking it, so it is never ticked |
| PhysicsTick.ClientTickTicksEveryCommand | Source/JoltNetworkPrediction/Public/Services/JoltNetworkPredictionService_PhysicsTick.inl:249-328 | under the corrected consumption every command consumed in the frame is ticked unless dropped, one that does not fit waits, and the steps stay within six and 200 ms |
| PhysicsTick.TickRemote | Source/JoltNetworkPrediction/Public/Services/JoltNetworkPredictionService_PhysicsTick.inl:249-328 | every managed client is ticked and every other client is left alone |
| PhysicsTick.TickRemoteKeepsCommands | Source/JoltNetworkPrediction/Public/Services/JoltNetworkPredictionService_PhysicsTick.inl:249-328 | under the corrected consumption no managed client's consumption passes a command the service did not tick, and its pending frame advances by the commands ticked |
| PhysicsTick.TickInstance | Source/JoltNetworkPrediction/Public/Services/JoltNetworkPredictionService_PhysicsTick.inl:132-144 | an instance's tick keeps its frame buffer valid and its network role |
| PhysicsTick.ConsumeOne | Source/JoltNetworkPrediction/Public/Services/JoltNetworkPredictionService_PhysicsTick.inl:270-326 | looking at one command never changes what was received; when the loop goes on, exactly one more command has been consumed and the budget is still open |
| PhysicsTick.ConsumeLoop | Source/JoltNetworkPrediction/Public/Services/JoltNetworkPredictionService_PhysicsTick.inl:265-326 | the consume loop never changes what was received and keeps the client valid |
| PhysicsTick.ClientTick | Source/JoltNetworkPrediction/Public/Services/JoltNetworkPredictionService_PhysicsTick.inl:249-328 | a client's share of an engine frame keeps the client valid, whichever consumption is chosen |
| Proxy.ReadState | Source/JoltNetworkPrediction/Public/JoltNetworkPredictionProxy.h:109-144 | a simulation read gives the pending value; a presentation read gives the presentation value when it is set and the pending value otherwise |
| Proxy.ReadPrevPresentation | Source/JoltNetworkPrediction/Public/JoltNetworkPredictionProxy.h:121-156 | the previous presentation value when set, else the pending simulation value |
| Proxy.WriteState | Source/JoltNetworkPrediction/Public/JoltNetworkPredictionProxyWrite.h:35-111 | a write applies the function to the targeted state when it is set and returns it; an unset state is left alone and nothing is returned |
| Proxy.PresentationNeverFeedsSimulation | Source/JoltNetworkPrediction/Public/JoltNetworkPredictionProxy.h:109-156 | writing a presentation state never changes what a simulation read sees; writing the pending state is what a simulation read then sees |
| Proxy.InitForNetworkRole | Source/JoltNetworkPrediction/Public/JoltNetworkPredictionProxy.h:61-70 | the role and connection are cached and, once bound, the config function is asked for the default config; nothing that replication compares changes |
| Proxy.Configure | Source/JoltNetworkPrediction/Public/JoltNetworkPredictionProxy.h:80-88 | the local config is stored and, once bound, the world manager is told; ID, dirty count and archetype are unchanged |
| Proxy.SetArchetype | Source/JoltNetworkPrediction/Public/JoltNetworkPredictionProxy.h:73-78 | the uint8 dirty count goes up by one, wrapping at 256, and the config is applied as by Configure |
| Proxy.EndPlay | Source/JoltNetworkPrediction/Public/JoltNetworkPredictionProxy.h:90-97 | once bound, the config function is asked to end play; nothing else changes |
| Proxy.OnlySetArchetypeDirties | Source/JoltNetworkPrediction/Public/JoltNetworkPredictionProxy.h:248-251 | only SetArchetype makes the proxy differ from its previous self for replication; Configure, InitForNetworkRole and EndPlay never do |
| Proxy.SetArchetypeTimesCount | Source/JoltNetworkPrediction/Public/JoltNetworkPredictionProxy.h:73-78 | after n archetype changes the dirty count is the old count plus n modulo 256 |
| Proxy.DirtyCountWrapsAfter256 | Source/JoltNetworkPrediction/Public/JoltNetworkPredictionProxy.h:248-251 | 256 archetype changes between two replication checks look like none, while 1 to 255 always show |
| Proxy.Decode | Source/JoltNetworkPrediction/Public/JoltNetworkPredictionProxy.h:217-221 | a decoded proxy carries a 32-bit ID pattern and a ticking-mode byte, or nothing when the stream runs out |
| Proxy.DecodeInvertsSave | Source/JoltNetworkPrediction/Public/JoltNetworkPredictionProxy.h:217-221 | decoding what a proxy saved gives its own ID pattern, its ticking mode and the rest of the stream |
| Proxy.LoadAsWritten | Source/JoltNetworkPrediction/Public/JoltNetworkPredictionProxy.h:223-244 | the load fails exactly on the same ID with no bound config function, and otherwise agrees with the guarded load |
| Proxy.AsWrittenCallsUnboundConfig | Source/JoltNetworkPrediction/Public/JoltNetworkPredictionProxy.h:239-243 | an unbound proxy loading the ID it already has calls the unbound config function |
| Proxy.Load | Source/JoltNetworkPrediction/Public/JoltNetworkPredictionProxy.h:223-244 | a load always keeps the proxy valid, sets the replicated ticking mode and keeps dirty count, config and binding |
| Proxy.ReplicationDeliversId | Source/JoltNetworkPrediction/Public/JoltNetworkPredictionProxy.h:217-246 | a client decoding the server's save takes the server's ID when unbound, asks for a remap when bound with another ID, only refreshes its config on the same ID, and always takes the archetype |
| Proxy.GetFixedInterpolationTime | Source/JoltNetworkPrediction/Public/JoltNetworkPredictionProxy.h:193-204 | the view's latest interpolation time when the view has one, else the world manager's interpolation time, else 0 |
| RollbackBlackboard.ComputeBufferSize | Source/JoltMover/Private/MoveLibrary/JoltRollbackBlackboard.cpp:11-31 | an entry buffer holds at least 2 values, and the declared size when that is larger under the fixed-size policy |
| RollbackBlackboard.RingSize | Source/JoltMover/Public/MoveLibrary/JoltRollbackBlackboard.h:174-259 | the circular buffer's capacity is the requested size rounded up to a power of two |
| RollbackBlackboard.NewEntry | Source/JoltMover/Private/MoveLibrary/JoltRollbackBlackboard.cpp:33-39 | a new entry has buffers of the computed size, every stamp invalid and both indices at 0 |
| RollbackBlackboard.TryGetValue | Source/JoltMover/Public/MoveLibrary/JoltRollbackBlackboard.h:205-236 | a value is returned exactly when the entry can be read at the chosen index, and it is the value stored there |
| RollbackBlackboard.SetInternal | Source/JoltMover/Public/MoveLibrary/JoltRollbackBlackboard.h:248-254 | an internal write goes one past the external index and leaves the external index alone |
| RollbackBlackboard.OnFrameEnd | Source/JoltMover/Public/MoveLibrary/JoltRollbackBlackboard.h:158-162 | at frame end the external index catches up with the internal one and nothing else changes |
| RollbackBlackboard.WriteIsPublishedAtFrameEnd | Source/JoltMover/Public/MoveLibrary/JoltRollbackBlackboard.h:158-254 | a value written in a frame is read back internally, is hidden from outside readers until the frame ends, and is what they read once it has |
| RollbackBlackboard.FindRollbackIdx | Source/JoltMover/Private/MoveLibrary/JoltRollbackBlackboard.cpp:46-57 | the rollback walk finds an index in range whose stamp is valid and older than the new pending frame |
| RollbackBlackboard.FindRollbackIdxIsHighest | Source/JoltMover/Private/MoveLibrary/JoltRollbackBlackboard.cpp:48-57 | the walk finds the highest such index and finds none only when none in range qualifies |
| RollbackBlackboard.RollBack | Source/JoltMover/Private/MoveLibrary/JoltRollbackBlackboard.cpp:41-63 | after a rollback both indices agree and never move forward; values are untouched |
| RollbackBlackboard.RollBackForgetsLaterFrames | Source/JoltMover/Private/MoveLibrary/JoltRollbackBlackboard.cpp:41-63 | after a rollback to a frame nothing written at or after that frame can be read, and the readable value is the newest older one within the buffer's reach |
| RollbackBlackboard.CreateEntry | Source/JoltMover/Public/MoveLibrary/JoltRollbackBlackboard.h:267-279 | a name that exists is refused and keeps its entry; a new name gets a fresh entry and nothing else changes |
| RollbackBlackboard.TryGet | Source/JoltMover/Public/MoveLibrary/JoltRollbackBlackboard.h:303-312 | an outside read at the committed stamp; nothing for an unknown name |
| RollbackBlackboard.TryGetInternal | Source/JoltMover/Public/MoveLibrary/JoltRollbackBlackboard.h:347-358 | a simulation read at the in-progress stamp; nothing for an unknown name |
| RollbackBlackboard.TrySetInternal | Source/JoltMover/Public/MoveLibrary/JoltRollbackBlackboard.h:331-345 | a simulation write with the in-progress stamp succeeds exactly for a known name and changes only that entry |
| RollbackBlackboard.BeginSimulationFrame | Source/JoltMover/Private/MoveLibrary/JoltRollbackBlackboard.cpp:101-110 | the in-progress stamp becomes the step's time and frame and a frame is in progress |
| RollbackBlackboard.EndSimulationFrame | Source/JoltMover/Private/MoveLibrary/JoltRollbackBlackboard.cpp:112-128 | the in-progress stamp is committed and every entry publishes its writes |
| RollbackBlackboard.BeginRollback | Source/JoltMover/Private/MoveLibrary/JoltRollbackBlackboard.cpp:130-150 | every entry rolls back to the new pending frame and both stamps move to the new base |
| RollbackBlackboard.EndRollback | Source/JoltMover/Private/MoveLibrary/JoltRollbackBlackboard.cpp:152-157 | ending a rollback changes no entry and no stamp |
| RollbackBlackboard.SimulationFramePublishesWrite | Source/JoltMover/Private/MoveLibrary/JoltRollbackBlackboard.cpp:101-128 | a whole frame with one write makes that write the outside read and leaves every other entry as it was |
| RollbackBlackboard.RollbackHidesLaterWrites | Source/JoltMover/Private/MoveLibrary/JoltRollbackBlackboard.cpp:130-150 | after beginning a rollback to a frame no outside read returns a value written at or after it |
| RollbackBlackboard.FramesAlternate | Source/JoltMover/Private/MoveLibrary/JoltRollbackBlackboard.cpp:101-157 | simulation frames and rollbacks alternate: each begin is followed by its end before another may begin |
| ScheduledEffects.DelayFrames | Source/JoltMover/Private/JoltMoverSimulationTypes.cpp:27-28 | the delay in frames is the least whole number of solver steps covering it, and 0 for a degenerate step |
| ScheduledEffects.ScheduleEffect | Source/JoltMover/Private/JoltMoverSimulationTypes.cpp:17-41 | the effect is fixed-step exactly when a solver uses a fixed step; a fixed one runs at the current frame plus the delay frames, a variable one at the server time plus the delay |
| ScheduledEffects.FixedEffectDueOnceDelayElapsed | Source/JoltMover/Public/JoltMoverSimulationTypes.h:91-95 | with a fixed step the effect is due at exactly the frames whose elapsed solver time covers the delay |
| ScheduledEffects.VariableEffectDueOnceDelayElapsed | Source/JoltMover/Public/JoltMoverSimulationTypes.h:97-101 | with a variable step the effect is due once the delay has elapsed on the server clock |
| MovementModeStateMachine.RegisterMovementMode | Source/JoltMover/Private/JoltMovementModeStateMachine.cpp:36-58 | registering adds (or replaces) exactly that mode name, makes it the default only when asked, and touches neither the current mode, the queued transition nor the other queues |
| MovementModeStateMachine.UnregisterMovementMode | Source/JoltMover/Private/JoltMovementModeStateMachine.cpp:62-70 | a registered mode is removed and nothing else changes: the current mode, the default and the queued transition stay as they were |
| MovementModeStateMachine.SetDefaultMode | Source/JoltMover/Private/JoltMovementModeStateMachine.cpp:89-94 | the default becomes the named mode, which must already be registered; modes, current mode and queue are unchanged |
| MovementModeStateMachine.ClearQueuedMode | Source/JoltMover/Private/JoltMovementModeStateMachine.cpp:152-155 | afterwards no transition is queued and re-entry is off; modes, current and default are unchanged |
| MovementModeStateMachine.ConstructDefaultModes | Source/JoltMover/Private/JoltMovementModeStateMachine.cpp:668-676 | the Null mode is registered and current, the default is None (the Null registration's default flag is overridden) and no transition is queued |
| MovementModeStateMachine.ClearAllMovementModes | Source/JoltMover/Private/JoltMovementModeStateMachine.cpp:72-87 | only the Null mode remains registered and current, the default is None, nothing is queued, and the previous current mode is deactivated exactly when it was registered |
| MovementModeStateMachine.QueueNextMode | Source/JoltMover/Private/JoltMovementModeStateMachine.cpp:120-142 | a registered name overwrites the queued transition with that mode and re-entry flag; None and unregistered names leave the queue untouched; queueing never changes the current mode |
| MovementModeStateMachine.AdvanceToNextMode | Source/JoltMover/Private/JoltMovementModeStateMachine.cpp:678-718 | the queue is always cleared; the machine switches exactly when the queued mode is registered and differs from the current one or re-entry was asked, and then the previous mode is deactivated (when registered) before the change is recorded, the new mode activated and the change broadcast, in that order |
| MovementModeStateMachine.SetModeImmediately | Source/JoltMover/Private/JoltMovementModeStateMachine.cpp:145-149 | setting a mode leaves nothing queued and keeps the registered modes and default |
| MovementModeStateMachine.SetModeImmediatelyLands | Source/JoltMover/Private/JoltMovementModeStateMachine.cpp:120-149 | setting a registered mode immediately makes it current; an unregistered one falls back to advancing whatever was already queued |
| MovementModeStateMachine.AdvanceKeepsCurrentRegistered | Source/JoltMover/Private/JoltMovementModeStateMachine.cpp:685-693 | an advance only ever switches to a registered mode, so a registered current mode stays registered |
| MovementModeStateMachine.QueueingNeverSwitches | Source/JoltMover/Private/JoltMovementModeStateMachine.cpp:120-142 | queueing never changes the current mode, and queueing the same request twice is the same as once |
| MovementModeStateMachine.OnSimulationRollback | Source/JoltMover/Private/JoltMovementModeStateMachine.cpp:477-505 | after a rollback nothing is queued: no mode transition, no layered moves or move instances, no instant effects and no modifiers; the registered modes and default are kept |
| MovementModeStateMachine.RollbackRestoresMode | Source/JoltMover/Private/JoltMovementModeStateMachine.cpp:477-484 | after a rollback the current mode is the rolled-back synced mode whenever that mode is registered, and otherwise unchanged |
| MovementModeStateMachine.DueSplitsQueue | Source/JoltMover/Private/JoltMovementModeStateMachine.cpp:857-883 | the due and not-yet-due instant effects together are exactly the queue: nothing lost, nothing duplicated, and each side holds only its own kind |
| MovementModeStateMachine.ApplyInstantEffects | Source/JoltMover/Private/JoltMovementModeStateMachine.cpp:851-886 | every due effect (by server frame for fixed-step effects, by server time otherwise) is applied and removed in queue order, the rest are kept in order, and the result is true exactly when some due effect reported a change |
| MovementModeStateMachine.RefundLimit | Source/JoltMover/Private/JoltMovementModeStateMachine.cpp:404-412 | the loop's effective refund limit is at least 1 and at least the configured setting, since a setting below 1 already trips on the first full refund |
| MovementModeStateMachine.SubstepClock | Source/JoltMover/Private/JoltMovementModeStateMachine.cpp:398-426 | a substep never gives time back; without a registered mode it uses the rest of the step; a partial refund resets the refund run and charges the used time; a full refund extends the run and charges the whole substep once the run reaches the limit |
| MovementModeStateMachine.SubstepLoop | Source/JoltMover/Private/JoltMovementModeStateMachine.cpp:189-442 | the loop runs at most one substep per mode report, never changes the registered modes, and leaves no transition queued once it has run a substep |
| MovementModeStateMachine.TickStart | Source/JoltMover/Private/JoltMovementModeStateMachine.cpp:177-182 | the tick starts by advancing: to the pending transition when one is queued, otherwise to the synced mode when it is registered; nothing stays queued |
| MovementModeStateMachine.OnSimulationTick | Source/JoltMover/Private/JoltMovementModeStateMachine.cpp:158-469 | a tick leaves no transition queued, keeps the registered modes and runs no more substeps than there are mode reports |
| MovementModeStateMachine.SubstepLowersPotential | Source/JoltMover/Private/JoltMovementModeStateMachine.cpp:404-426 | every substep that does not finish the step lowers a bounded potential (unused time in small-number units, weighted by the refund limit, plus the room left in the refund run) |
| MovementModeStateMachine.SubstepLoopFinishes | Source/JoltMover/Private/JoltMovementModeStateMachine.cpp:189-442 | the substep loop cannot spin forever: given enough mode reports it uses the whole step |
| MovementModeStateMachine.TickUsesWholeStep | Source/JoltMover/Private/JoltMovementModeStateMachine.cpp:158-469 | a whole tick uses all of its time once the modes have been consulted a bounded number of times |
| MoverDataCollection.FindDataByType | Source/JoltMover/Private/JoltMoverTypes.cpp:446-463 | the lookup finds the first block whose type is the requested one or derives from it, and finds nothing exactly when no block answers for the type |
| MoverDataCollection.GrowsKeepsPresent | Source/JoltMover/Private/JoltMoverTypes.cpp:446-463 | a type found in a collection is still found after the collection grows |
| MoverDataCollection.AddDataByType | Source/JoltMover/Private/JoltMoverTypes.cpp:396-417 | adding by type is refused, leaving the collection unchanged, when a block already answers for the type; otherwise a fresh block is appended at the end |
| MoverDataCollection.FindOrAddDataByType | Source/JoltMover/Private/JoltMoverTypes.cpp:466-474 | the result is a block answering for the type: the first existing one (collection unchanged), or a freshly appended one |
| MoverDataCollection.FindOrAddNeverDuplicates | Source/JoltMover/Private/JoltMoverTypes.cpp:466-474 | find-or-add adds at most one block and none when the type is already present, after which the type is present |
| MoverDataCollection.AddDataByCopy | Source/JoltMover/Private/JoltMoverTypes.cpp:427-443 | copying in never removes a type, adds at most one block and none when the copied type is already answered for |
| MoverDataCollection.AddDataByCopyFindsCopy | Source/JoltMover/Private/JoltMoverTypes.cpp:427-443 | after copying in, a lookup by the copy's type finds a block holding the copied data |
| MoverDataCollection.RemoveDataByType | Source/JoltMover/Private/JoltMoverTypes.cpp:477-503 | removal reports true exactly when a block answers for the type, and then removes exactly the first such block, keeping the others in order |
| MoverDataCollection.AddOrOverwriteData | Source/JoltMover/Private/JoltMoverTypes.cpp:420-424 | add-or-overwrite ends with the new block and grows the collection only when no block answered for its type |
| MoverDataCollection.ShouldReconcileMeans | Source/JoltMover/Private/JoltMoverTypes.cpp:256-278 | a collection needs reconciling exactly when the block counts differ or some block has no counterpart by type in the authority or differs from it |
| MoverDataCollection.ElementsReconcileMeans | Source/JoltMover/Private/JoltMoverTypes.cpp:264-277 | the element scan asks for reconciliation exactly when some block mismatches |
| MoverDataCollection.InterpolateFrom | Source/JoltMover/Private/JoltMoverTypes.cpp:286-300 | the first interpolation pass keeps every existing type and makes every type of From present |
| MoverDataCollection.InterpolateToOnly | Source/JoltMover/Private/JoltMoverTypes.cpp:303-309 | the second pass keeps every existing type and adds every type of To that From did not have |
| MoverDataCollection.Interpolate | Source/JoltMover/Private/JoltMoverTypes.cpp:280-310 | interpolating into a collection never removes a type it had |
| MoverDataCollection.InterpolateKeepsAllTypes | Source/JoltMover/Private/JoltMoverTypes.cpp:280-310 | after interpolating, every type of From and every type of To can be found |
| MoverDataCollection.Merge | Source/JoltMover/Private/JoltMoverTypes.cpp:312-326 | merging keeps every existing type, adds at most one block per block of From, and makes every type of From present |
| MoverDataCollection.Save | Source/JoltMover/Private/JoltMoverTypes.cpp:506-514 | the saved stream starts with the block count truncated to a uint8 |
| MoverDataCollection.LoadBlocks | Source/JoltMover/Private/JoltMoverTypes.cpp:521-591 | a successful block load yields exactly as many slots as the count announced |
| MoverDataCollection.Load | Source/JoltMover/Private/JoltMoverTypes.cpp:506-593 | a successful load had a count field and yields exactly that many slots |
| MoverDataCollection.LoadSavedBlocks | Source/JoltMover/Private/JoltMoverTypes.cpp:521-591 | loading the blocks of a save returns every block, whatever follows them |
| MoverDataCollection.LoadInvertsSave | Source/JoltMover/Private/JoltMoverTypes.cpp:506-593 | a collection of fewer than 256 replicable blocks comes back intact: every block, with its type and payload, in order |
| MoverDataCollection.CountWrapsAt256 | Source/JoltMover/Private/JoltMoverTypes.cpp:508-518 | the count is a uint8, so a collection of 256 blocks arrives empty |
| MoverDataCollection.LoadRefusesForeignStruct | Source/JoltMover/Private/JoltMoverTypes.cpp:535-583 | a block whose type does not derive from the data-struct base is refused with an archive error |
| MovementMixer.ResetMixerState | Source/JoltMover/Private/MoveLibrary/JoltMovementMixer.cpp:220-224 | after a reset the tracked priority is 0 and any move with a positive priority or a finite start time wins the next priority check |
| MovementMixer.CheckPriority | Source/JoltMover/Private/MoveLibrary/JoltMovementMixer.cpp:243-258 | a move is accepted exactly when it has a strictly higher priority, or the same priority and a strictly earlier start, and an accepted move becomes the tracked one; a rejected move leaves the tracking alone |
| MovementMixer.CheckPriorityIsStrict | Source/JoltMover/Private/MoveLibrary/JoltMovementMixer.cpp:226-258 | the tracked priority never drops, and the same move never wins twice in a row |
| MovementMixer.MixLayeredMove | Source/JoltMover/Private/MoveLibrary/JoltMovementMixer.cpp:98-180 | an additive step adds its velocities only while the cumulative move does not override velocity; an overriding step replaces the velocities only when it wins the priority check; OverrideAll and OverrideAllExceptVerticalVelocity steps that win replace the whole cumulative move |
| MovementMixer.AdditiveStepsCannotMoveAnOverride | Source/JoltMover/Private/MoveLibrary/JoltMovementMixer.cpp:137-149 | once the cumulative move overrides velocity, a run of additive steps changes neither its velocities nor its mix mode |
| MovementMixer.TrackedPriorityIsMaximum | Source/JoltMover/Private/MoveLibrary/JoltMovementMixer.cpp:16-97 | after mixing a run of moves the tracked priority never decreased, is either the one tracked before or some step's priority, and is at least the priority of every overriding step |
| MovementMixer.MixProposedMoves | Source/JoltMover/Private/MoveLibrary/JoltMovementMixer.cpp:182-218 | an OverrideAll move replaces the cumulative move; an additive one adds its velocities; an OverrideVelocity one replaces the velocities; direction intent is taken unless the cumulative move overrides everything |
| MovementMixer.OverrideExceptVerticalKeepsVertical | Source/JoltMover/Private/MoveLibrary/JoltMovementMixer.cpp:205-213 | with a unit up direction, OverrideAllExceptVerticalVelocity keeps the existing vertical velocity and takes the incoming move's horizontal velocity |
| ResidualVelocity.FlagsRecordOverrides | Source/JoltMover/Private/JoltLayeredMoveGroup.cpp:343-398 | after a flush an override flag is set exactly when it was set before or some finishing move of that kind overrode, and the apply flag exactly when it was or some finishing move set a velocity |
| ResidualVelocity.VelocityWithoutOverride | Source/JoltMover/Private/JoltLayeredMoveGroup.cpp:343-368 | with no overriding move, the residual velocity is the starting one plus every additive contribution |
| ResidualVelocity.LastOverrideWins | Source/JoltMover/Private/JoltLayeredMoveGroup.cpp:343-368 | the residual velocity is the one set by the last overriding move, whatever additive moves came after it |
| ResidualVelocity.AdditiveClampKeepsMinimum | Source/JoltMover/Private/JoltLayeredMoveGroup.cpp:370-397 | without a clamp override, the clamp kept is the smallest of the starting clamp (when set) and the additive clamps |
| ResidualVelocity.LastClampOverrideWins | Source/JoltMover/Private/JoltLayeredMoveGroup.cpp:370-397 | the clamp is the one set by the last overriding clamp move, whatever came after it |
| ResidualVelocity.ApplyResidualVelocity | Source/JoltMover/Private/JoltLayeredMoveGroup.cpp:86-97 | applying replaces only the proposed linear velocity: with the residual one when it is to be applied, then limited by a non-negative clamp; the residual state is reset afterwards |
| ResidualVelocity.GatherAsWritten | Source/JoltMover/Private/JoltLayeredMove.cpp:469-542 | the older group's gathering agrees with the newer group's processing except on the inputs that fall through to its failed check |
| ResidualVelocity.GatherAllAgreesUnlessChecked | Source/JoltMover/Private/JoltLayeredMove.cpp:469-542 | whenever the older group's flush survives its checks it ends in the same residual state as the newer group's |
| ResidualVelocity.AdditiveEndingsNeverCheck | Source/JoltMover/Private/JoltLayeredMove.cpp:469-542 | a flush in which only additive moves end never reaches the check |
| ResidualVelocity.AdditiveAfterOverrideReachesCheck | Source/JoltMover/Private/JoltLayeredMove.cpp:469-542 | an overriding SetVelocity move followed in the same flush by an additive one stops the older group on its check, while the newer group keeps the override's velocity |
| LayeredMoveGroup.NewMove | Source/JoltMover/Private/JoltLayeredMove.cpp:35-41 | a freshly constructed layered move has not started |
| LayeredMoveGroup.IsFinished | Source/JoltMover/Private/JoltLayeredMove.cpp:62-69 | only a started move with a non-negative duration can be finished, and a started zero-duration move always is |
| LayeredMoveGroup.StartMove | Source/JoltMover/Private/JoltLayeredMove.cpp:44-48 | starting stamps only the start time; from then on the move is finished exactly when its duration is zero, or positive and elapsed |
| LayeredMoveGroup.FinishedStaysFinished | Source/JoltMover/Private/JoltLayeredMove.cpp:62-69 | a finished move stays finished as time goes on |
| LayeredMoveGroup.QueueLayeredMove | Source/JoltMover/Private/JoltLayeredMove.cpp:129-136 | a valid move joins the end of the queue; a null one is refused and nothing changes |
| LayeredMoveGroup.CancelMovesByTag | Source/JoltMover/Private/JoltLayeredMove.cpp:138-144 | cancelling only appends the request; the moves themselves are untouched until the next flush |
| LayeredMoveGroup.Removed | Source/JoltMover/Private/JoltLayeredMove.cpp:395-417 | the moves a removal pass takes are exactly the non-null moves it selects |
| LayeredMoveGroup.CancelAll | Source/JoltMover/Private/JoltLayeredMove.cpp:389-421 | the cancellation pass only ever keeps moves that were there and only ends moves that were active |
| LayeredMoveGroup.CancelAllClears | Source/JoltMover/Private/JoltLayeredMove.cpp:389-421 | after cancellation no surviving active or queued move is one any request matches |
| LayeredMoveGroup.CancelAllEndsMatching | Source/JoltMover/Private/JoltLayeredMove.cpp:400-417 | cancellation ends exactly the active moves some request matches |
| LayeredMoveGroup.CancelAllKeeps | Source/JoltMover/Private/JoltLayeredMove.cpp:400-417 | an active move no request matches survives cancellation |
| LayeredMoveGroup.Started | Source/JoltMover/Private/JoltLayeredMove.cpp:453-464 | every queued move becomes active in queue order, started at the current time |
| LayeredMoveGroup.FlushMoves | Source/JoltMover/Private/JoltLayeredMove.cpp:377-467 | after a flush the queue and the cancellation requests are empty, the started queue sits at the end of the active list, and every earlier active move is one that stays active |
| LayeredMoveGroup.Endings | Source/JoltMover/Private/JoltLayeredMove.cpp:469-542 | each ending move hands its mix mode and finish-velocity settings to the residual gathering, in the order the moves end |
| LayeredMoveGroup.FlushMoveArrays | Source/JoltMover/Private/JoltLayeredMove.cpp:377-467 | a flush that survives its checks leaves the group of the bookkeeping with the ended moves gathered into the residual velocity; a flush in which only additive moves end always survives |
| LayeredMoveGroup.FlushWithoutCancels | Source/JoltMover/Private/JoltLayeredMove.cpp:425-466 | with nothing to cancel, a flush keeps the unfinished active moves in order and then starts the whole queue in order |
| LayeredMoveGroup.Validity | Source/JoltMover/Private/JoltLayeredMove.cpp:256-291 | equality looks only at which slots hold a move |
| LayeredMoveGroup.Equal | Source/JoltMover/Private/JoltLayeredMove.cpp:243-293 | two groups compare equal exactly when their move arrays have the same counts and moves in the same slots; the moves' state is not compared |
| LayeredMoveGroup.EqualIgnoresMoveState | Source/JoltMover/Private/JoltLayeredMove.cpp:243-293 | groups whose moves differ in every field but sit in the same slots compare equal |
| LayeredMoveGroup.HasSameContents | Source/JoltMover/Private/JoltLayeredMove.cpp:300-326 | two groups have the same contents exactly when the counts match and every slot holds a move of the same type |
| LayeredMoveGroup.FindMove | Source/JoltMover/Private/JoltLayeredMove.cpp:353-375 | the lookup returns the first non-null move whose type is or derives from the requested one, and nothing exactly when there is none |
| LayeredMoveGroup.ResetResidualVelocity | Source/JoltMover/Private/JoltLayeredMove.cpp:639-644 | the residual velocity, clamp and apply flag return to their constructed values and nothing else changes |
| LayeredMoveGroup.Reset | Source/JoltMover/Private/JoltLayeredMove.cpp:646-652 | a reset group equals a freshly constructed one |
| LayeredMoveGroup.CopyLayeredMoveArray | Source/JoltMover/Private/JoltLayeredMove.cpp:176-216 | whichever copy path is taken, the destination ends up holding the source's moves in order with the null slots dropped |
| LayeredMoveGroup.Assign | Source/JoltMover/Private/JoltLayeredMove.cpp:229-241 | assignment takes both move arrays (without nulls) and the cancellation requests from the other group, and keeps its own residual velocity, clamp and apply flag |
| LayeredMoveWire.SaveFinishAsWritten | Source/JoltMover/Private/JoltLayeredMove.cpp:13-33 | as written, saving the finish-velocity settings always writes a cleared has-settings bit and nothing else |
| LayeredMoveWire.SaveFinish | Source/JoltMover/Private/JoltLayeredMove.cpp:13-33 | the corrected save leads with a bit saying whether the finish mode differs from the default |
| LayeredMoveWire.LoadHeader | Source/JoltMover/Private/JoltLayeredMove.cpp:89-104 | reading a move's header consumes at least one field |
| LayeredMoveWire.LoadMoveAsWritten | Source/JoltMover/Private/JoltLayeredMove.cpp:89-106 | loading a move in place keeps the receiving struct's type |
| LayeredMoveWire.LoadMove | Source/JoltMover/Private/JoltLayeredMove.cpp:89-106 | the corrected load keeps the receiving struct's type |
| LayeredMoveWire.HeaderRoundTrip | Source/JoltMover/Private/JoltLayeredMove.cpp:89-104 | the header reads back the mix mode, the priority (absent exactly when it is the default 0), the duration and the start time, leaving what follows |
| LayeredMoveWire.MoveRoundTrip | Source/JoltMover/Private/JoltLayeredMove.cpp:13-106 | a move survives the corrected wire into any struct of its type, whatever that struct held before, and the rest of the stream is left unread |
| LayeredMoveWire.SaveSlots | Source/JoltMover/Private/JoltLayeredMove.cpp:575-636 | saving the slots fails exactly when some move's type does not derive from the layered-move base |
| LayeredMoveWire.SaveArray | Source/JoltMover/Private/JoltLayeredMove.cpp:557-568 | a saved array starts with its count clamped to the budget |
| LayeredMoveWire.SetNumZeroed | Source/JoltMover/Private/JoltLayeredMove.cpp:570-573 | resizing on load keeps the leading slots and pads with null slots |
| LayeredMoveWire.LoadSlots | Source/JoltMover/Private/JoltLayeredMove.cpp:575-636 | a successful slot load leaves an array of exactly the announced length |
| LayeredMoveWire.LoadArray | Source/JoltMover/Private/JoltLayeredMove.cpp:557-637 | a successful array load had a count field and yields exactly that many slots |
| LayeredMoveWire.SlotFor | Source/JoltMover/Private/JoltLayeredMove.cpp:602-618 | a move is always loaded into a struct of the arriving type |
| LayeredMoveWire.LoadSavedSlots | Source/JoltMover/Private/JoltLayeredMove.cpp:575-636 | loading the saved slots restores every move from slot i on, keeps the slots before it, and leaves the rest of the stream |
| LayeredMoveWire.ArrayRoundTrip | Source/JoltMover/Private/JoltLayeredMove.cpp:557-637 | through the corrected wire an array of at most the budget of replicable moves arrives whole, in order, whatever the receiving array held |
| LayeredMoveWire.LoadRefusesForeignMove | Source/JoltMover/Private/JoltLayeredMove.cpp:588-628 | a move type not derived from the layered-move base is refused on load with an archive error |
| LayeredMoveWire.Budget | Source/JoltMover/Private/JoltLayeredMove.cpp:166-173 | the active array gets the budget first, up to its size, and the queue gets the rest |
| LayeredMoveWire.SentCounts | Source/JoltMover/Private/JoltLayeredMove.cpp:166-173 | a group never sends more than the budget, active moves first, and sends everything when everything fits |
| LayeredMoveWire.GroupRoundTrip | Source/JoltMover/Private/JoltLayeredMove.cpp:166-173 | a group of at most the budget of replicable moves survives the corrected wire: both arrays arrive whole and in order into any receiving group |
| LayeredMoveWire.FinishSettingsDoNotReplicate | Source/JoltMover/Private/JoltLayeredMove.cpp:15 | as written, SetVelocity finish settings never reach the receiver, where the corrected wire carries them |
| LayeredMoveWire.DefaultPriorityKeepsStaleValue | Source/JoltMover/Private/JoltLayeredMove.cpp:95-100 | loaded in place over a move of its type, a default-priority move keeps the old priority as written; the corrected load gives it priority 0 |
| LayeredMoveInstances.NewData | Source/JoltMover/Public/JoltLayeredMoveBase.h:86-92 | fresh instanced data has the requested type, has not started and has no duration |
| LayeredMoveInstances.DataEqual | Source/JoltMover/Private/JoltLayeredMoveBase.cpp:17-31 | two instanced data compare equal exactly when they have the same type, start time and duration |
| LayeredMoveInstances.LogicIsFinished | Source/JoltMover/Private/JoltLayeredMoveBase.cpp:52-66 | a negative duration never finishes, and a finished move has started no later than the step's base time |
| LayeredMoveInstances.FinishRulesAgreeOnceStarted | Source/JoltMover/Private/JoltLayeredMoveBase.cpp:52-66 | once the start time has been reached, the instance rule agrees with the older layered move's IsFinished; before that only the older rule counts a started zero-duration move as finished |
| LayeredMoveInstances.IsFinished | Source/JoltMover/Private/JoltLayeredMoveBase.cpp:282-290 | an instance without logic counts as finished; one with logic and a negative duration never finishes |
| LayeredMoveInstances.InstanceEnding | Source/JoltMover/Private/JoltLayeredMoveBase.cpp:292-310 | an instance without logic ends with the default finish settings and the additive mix mode; with logic it ends with its logic's settings and mix mode |
| LayeredMoveInstances.StartMove | Source/JoltMover/Private/JoltLayeredMoveBase.cpp:242-251 | starting stamps the data with the step's base time when there is logic, and does nothing otherwise |
| LayeredMoveInstances.GenerateMove | Source/JoltMover/Private/JoltLayeredMoveBase.cpp:253-271 | an instance proposes a move exactly when its logic does, and the proposal is the logic's with at most the preferred mode changed; without logic nothing is proposed |
| LayeredMoveInstances.PreferredModeOnlyOnFirstTick | Source/JoltMover/Private/JoltLayeredMoveBase.cpp:258-266 | a proposed preferred mode survives only on the tick the move started; on any later tick it is None |
| LayeredMoveInstances.FirstWithClass | Source/JoltMover/Private/JoltLayeredMoveBase.cpp:392-403 | the registry lookup returns the first registered logic of exactly the class, and nothing exactly when no registered logic has it |
| LayeredMoveInstances.PopulateLogic | Source/JoltMover/Private/JoltLayeredMoveBase.cpp:386-419 | an instance with logic keeps it; one without binds the first registered logic of its remembered class, and the flag says whether the instance now has logic |
| LayeredMoveInstances.QueueLayeredMove | Source/JoltMover/Private/JoltLayeredMoveGroup.cpp:53-61 | only a non-null instance with logic is queued, at the end; anything else leaves the group unchanged |
| LayeredMoveInstances.QueueKeepsQueueRunnable | Source/JoltMover/Private/JoltLayeredMoveGroup.cpp:53-61 | queueing keeps every queued instance non-null and with logic |
| LayeredMoveInstances.CancelMovesByTag | Source/JoltMover/Private/JoltLayeredMoveGroup.cpp:264-270 | cancelling only appends the request; the next flush carries it out |
| LayeredMoveInstances.Activate | Source/JoltMover/Private/JoltLayeredMoveGroup.cpp:323-338 | exactly the non-null queued instances with logic become active, in order, each started at the step's base time |
| LayeredMoveInstances.ActivateKeepsRunnable | Source/JoltMover/Private/JoltLayeredMoveGroup.cpp:323-338 | with only runnable instances queued, every one is activated in order |
| LayeredMoveInstances.FlushMoveArrays | Source/JoltMover/Private/JoltLayeredMoveGroup.cpp:273-341 | after a flush the queue and the cancellation requests are empty, and the residual velocity is what the ended instances gather |
| LayeredMoveInstances.FlushActiveMeans | Source/JoltMover/Private/JoltLayeredMoveGroup.cpp:273-341 | after a flush the active array holds first exactly the slots that survived cancellation and have not finished (null slots included), then the runnable queued instances, started |
| LayeredMoveInstances.FlushEndedMeans | Source/JoltMover/Private/JoltLayeredMoveGroup.cpp:279-320 | the instances a flush ends are first those cancellation ended, then exactly the non-null surviving instances that had finished |
| LayeredMoveInstances.Endings | Source/JoltMover/Private/JoltLayeredMoveGroup.cpp:343-398 | each ending instance hands its mix mode and finish settings to the residual processing, in the order they end |
| LayeredMoveInstances.HasSameContents | Source/JoltMover/Private/JoltLayeredMoveGroup.cpp:62-85 | the same contents means equal counts and the same data type in every slot, and implies equality |
| LayeredMoveInstances.EqualIgnoresContents | Source/JoltMover/Private/JoltLayeredMoveGroup.cpp:38-51 | equality compares only the counts: two groups with different move types in their one slot compare equal but do not have the same contents |
| LayeredMoveInstances.FindByLogicClass | Source/JoltMover/Private/JoltLayeredMoveGroup.cpp:212-249 | the lookup returns the first instance whose logic has exactly the class, and nothing exactly when none does |
| LayeredMoveInstances.FindByDataType | Source/JoltMover/Private/JoltLayeredMoveGroup.cpp:225-262 | the lookup returns the first instance whose data has exactly the type, and nothing exactly when none does |
| LayeredMoveInstances.PopulateAll | Source/JoltMover/Private/JoltLayeredMoveGroup.cpp:188-205 | binding logic over an array keeps every slot's nullness, and each non-null slot is bound as one instance would be |
| LayeredMoveInstances.PopulateMissingActiveMoveLogic | Source/JoltMover/Private/JoltLayeredMoveGroup.cpp:188-205 | the group binds missing logic in both its active and its queued array |
| LayeredMoveInstances.GenerateMixedMove | Source/JoltMover/Private/JoltLayeredMoveGroup.cpp:98-116 | the result says whether any active instance proposed a move; when none did, the cumulative move and the mixer are unchanged |
| LayeredMoveInstances.ResetResidualVelocity | Source/JoltMover/Private/JoltLayeredMoveGroup.cpp:173-178 | only the residual velocity, clamp and apply flag are reset |
| LayeredMoveInstances.Reset | Source/JoltMover/Private/JoltLayeredMoveGroup.cpp:180-186 | a reset group equals a freshly constructed one |
| LayeredMoveInstances.Assign | Source/JoltMover/Private/JoltLayeredMoveGroup.cpp:17-36 | assignment takes both arrays pointer by pointer (null slots included) and the cancellation requests from the other group, and keeps its own residual state |
| LayeredMoveInstances.ApplyResidualVelocity | Source/JoltMover/Private/JoltLayeredMoveGroup.cpp:86-97 | applying hands the proposed move the gathered residual (then the clamp) and clears the group's residual state |
| LayeredMoveInstanceWire.LoadData | Source/JoltMover/Private/JoltLayeredMoveBase.cpp:38-42 | loading instanced data keeps the receiving struct's type and consumes at least one field |
| LayeredMoveInstanceWire.SaveInstance | Source/JoltMover/Private/JoltLayeredMoveBase.cpp:317-379 | saving an instance fails with an archive error exactly when its data type does not derive from the instanced-data base |
| LayeredMoveInstanceWire.LoadInstance | Source/JoltMover/Private/JoltLayeredMoveBase.cpp:317-379 | a loaded instance has no logic and remembers the logic class that arrived with it |
| LayeredMoveInstanceWire.InstanceRoundTrip | Source/JoltMover/Private/JoltLayeredMoveBase.cpp:317-379 | an instance with logic and a replicable data type arrives with the same data, no logic and its logic's class remembered |
| LayeredMoveInstanceWire.PopulateRestoresLogic | Source/JoltMover/Private/JoltLayeredMoveBase.cpp:386-419 | binding a received instance to the registry restores the original logic whenever it is the first registered logic of its class |
| LayeredMoveInstanceWire.UnregisteredClassStaysUnbound | Source/JoltMover/Private/JoltLayeredMoveBase.cpp:405-415 | a received instance whose class no registered logic has stays without logic and so counts as finished |
| LayeredMoveInstanceWire.SaveSlots | Source/JoltMover/Private/JoltLayeredMoveGroup.cpp:146-150 | saving the slots fails exactly when some instance's data type does not derive from the base |
| LayeredMoveInstanceWire.SaveArray | Source/JoltMover/Private/JoltLayeredMoveGroup.cpp:122-129 | a saved array starts with its count clamped to the budget |
| LayeredMoveInstanceWire.SetNumZeroed | Source/JoltMover/Private/JoltLayeredMoveGroup.cpp:131-135 | resizing on load keeps the leading slots and pads with null slots |
| LayeredMoveInstanceWire.LoadSlots | Source/JoltMover/Private/JoltLayeredMoveGroup.cpp:137-142 | a successful slot load leaves an array of the announced length, keeps the slots before i and fills every later slot with a fresh instance without logic |
| LayeredMoveInstanceWire.LoadArray | Source/JoltMover/Private/JoltLayeredMoveGroup.cpp:120-152 | a successful array load had a count field, yields exactly that many slots, and every slot holds an instance without logic |
| LayeredMoveInstanceWire.LoadSlotsIgnoresReceiver | Source/JoltMover/Private/JoltLayeredMoveGroup.cpp:137-142 | from slot i on, what the receiving array held makes no difference to the load |
| LayeredMoveInstanceWire.LoadArrayIgnoresReceiver | Source/JoltMover/Private/JoltLayeredMoveGroup.cpp:131-142 | the loaded array does not depend on what the receiving array held |
| LayeredMoveInstanceWire.Received | Source/JoltMover/Private/JoltLayeredMoveBase.cpp:317-379 | a received instance carries the sent data, no logic and the sent logic's class |
| LayeredMoveInstanceWire.LoadSavedSlots | Source/JoltMover/Private/JoltLayeredMoveGroup.cpp:120-152 | loading the saved slots from slot i on yields the received form of every sent instance and leaves the rest of the stream |
| LayeredMoveInstanceWire.ArrayRoundTrip | Source/JoltMover/Private/JoltLayeredMoveGroup.cpp:120-152 | an array of at most the budget of replicable instances arrives whole and in order, into any receiving array |
| LayeredMoveInstanceWire.QueuedBudget | Source/JoltMover/Private/JoltLayeredMoveGroup.cpp:154-157 | the queue's budget is what the active count leaves of the total, never negative, and sender and receiver compute the same budget |
| LayeredMoveInstanceWire.PopulateRestoresArray | Source/JoltMover/Private/JoltLayeredMoveGroup.cpp:188-205 | binding the logic of a received array restores every instance's data and logic, whenever each logic is the first registered one of its class |
| LayeredMoveInstanceWire.GroupRoundTrip | Source/JoltMover/Private/JoltLayeredMoveGroup.cpp:118-158 | a group of at most the budget of replicable instances crosses the wire into any receiving group, and binding the logic afterwards restores every instance's data and logic |
| MovementModifier.GenerateHandle | Source/JoltMover/Private/JoltMovementModifier.cpp:11-23 | a generated handle is always valid and is the new generator value: the next number, or 1 when the uint16 generator wraps past the invalid 0 |
| MovementModifier.GenerateHandles | Source/JoltMover/Private/JoltMovementModifier.cpp:11-23 | every handle of a run of generations is valid |
| MovementModifier.GeneratedHandleIs | Source/JoltMover/Private/JoltMovementModifier.cpp:11-23 | the k-th generated handle cycles through 1..65535 |
| MovementModifier.HandlesDistinctWithinCycle | Source/JoltMover/Private/JoltMovementModifier.cpp:11-23 | any 65535 successive handles are pairwise distinct: a handle is reused only after a full cycle |
| MovementModifier.NewModifier | Source/JoltMover/Private/JoltMovementModifier.cpp:25-29 | a new modifier has no duration, has not started and has no valid handle |
| MovementModifier.IsFinished | Source/JoltMover/Private/JoltMovementModifier.cpp:54-61 | a modifier finishes by exactly the rule the older layered moves use for their start time and duration |
| MovementModifier.StartModifier | Source/JoltMover/Private/JoltMovementModifier.cpp:31-35 | starting stamps only the start time; from then on the modifier finishes exactly when its duration is zero, or positive and elapsed |
| MovementModifier.Matches | Source/JoltMover/Private/JoltMovementModifier.cpp:86-90 | a modifier matches another exactly when that one exists and has the same type |
| MovementModifier.OverwriteHandleIfInvalid | Source/JoltMover/Private/JoltMovementModifier.cpp:102-108 | only an invalid handle is replaced, and only by a valid one; nothing else of the modifier changes |
| MovementModifier.QueueMovementModifier | Source/JoltMover/Private/JoltMovementModifier.cpp:119-126 | a valid modifier joins the end of the queue; a null one is refused and nothing changes |
| MovementModifier.ZeroDurations | Source/JoltMover/Private/JoltMovementModifier.cpp:130-136 | cancelling in the active array sets the duration of exactly the picked modifiers to zero and leaves every other slot alone |
| MovementModifier.CancelModifierFromHandle | Source/JoltMover/Private/JoltMovementModifier.cpp:128-143 | active modifiers with the handle get a zero duration; exactly the queued modifiers with the handle, and the null queued slots, are removed |
| MovementModifier.CancelModifiersByTag | Source/JoltMover/Private/JoltMovementModifier.cpp:145-159 | active modifiers with the tag get a zero duration; exactly the queued modifiers with the tag, and the null queued slots, are removed |
| MovementModifier.TypesOf | Source/JoltMover/Private/JoltMovementModifier.cpp:352-400 | the type set of an array is exactly the types of its non-null slots |
| MovementModifier.FirstMatch | Source/JoltMover/Private/JoltMovementModifier.cpp:352-400 | the match found for a queued modifier is the first active slot of its type, and none exactly when no active slot has its type |
| MovementModifier.ActivateOne | Source/JoltMover/Private/JoltMovementModifier.cpp:352-400 | a queued modifier whose type is already active only donates its handle to that one; otherwise it is started and appended; the active modifiers change at most in their handles |
| MovementModifier.ActivateOneTypes | Source/JoltMover/Private/JoltMovementModifier.cpp:352-400 | one activation adds the queued modifier's type and no other |
| MovementModifier.ActivateOneUnique | Source/JoltMover/Private/JoltMovementModifier.cpp:352-400 | one activation never puts a second modifier of one type into the active array |
| MovementModifier.ActivateAll | Source/JoltMover/Private/JoltMovementModifier.cpp:352-400 | activating the queue never introduces a null slot |
| MovementModifier.StructsOf | Source/JoltMover/Private/JoltMovementModifier.cpp:352-400 | the type set of the queued modifiers holds exactly their types |
| MovementModifier.ActivateAllTypes | Source/JoltMover/Private/JoltMovementModifier.cpp:352-400 | after activation the active types are the old ones plus every queued type |
| MovementModifier.ActivateAllUnique | Source/JoltMover/Private/JoltMovementModifier.cpp:352-400 | activation never puts a second modifier of one type into the active array |
| MovementModifier.ActivateAllKeeps | Source/JoltMover/Private/JoltMovementModifier.cpp:352-400 | activation keeps the active modifiers in place, changing at most their handles, and appends at most one modifier per queued one |
| MovementModifier.FlushModifierArrays | Source/JoltMover/Private/JoltMovementModifier.cpp:352-400 | after a flush the queue is empty and no active slot is null, and the ended modifiers are exactly the active ones that had finished |
| MovementModifier.FlushActiveMeans | Source/JoltMover/Private/JoltMovementModifier.cpp:352-400 | after a flush the surviving modifiers come first (handles possibly donated), the active types are the surviving ones plus the queued ones, and a group without duplicate types keeps none |
| MovementModifier.FilterKeepsUnique | Source/JoltMover/Private/JoltMovementModifier.cpp:352-400 | removing modifiers from an array without duplicate types leaves none |
| MovementModifier.CancelledModifierEnds | Source/JoltMover/Private/JoltMovementModifier.cpp:128-143 | a started modifier cancelled by handle is ended by the next flush |
| MovementModifier.Equal | Source/JoltMover/Private/JoltMovementModifier.cpp:240-281 | two groups compare equal exactly when their arrays have the same counts and the same null slots; the modifiers are not compared |
| MovementModifier.HasSameContents | Source/JoltMover/Private/JoltMovementModifier.cpp:289-315 | the same contents means equal counts and the same type in every slot, and implies equality |
| MovementModifier.ShouldReconcile | Source/JoltMover/Private/JoltMovementModifier.cpp:554-581 | reconciliation is needed exactly when the groups do not have the same contents: a count differs or some slot's type differs |
| MovementModifier.Reset | Source/JoltMover/Private/JoltMovementModifier.cpp:548-552 | a reset group has no active and no queued modifiers |
| MovementModifier.CopyModifierArray | Source/JoltMover/Private/JoltMovementModifier.cpp:174-226 | whichever copy path is taken, the destination ends up holding the source's modifiers in order with the null slots dropped |
| MovementModifier.Assign | Source/JoltMover/Private/JoltMovementModifier.cpp:228-238 | after assignment neither array holds a null slot, and a group without nulls is copied exactly |
| MovementModifier.FindByHandle | Source/JoltMover/Private/JoltMoverComponent.cpp:896-928 | the lookup returns a modifier with the handle, the first of the array, and nothing exactly when none has it |
| MovementModifier.QueuedIteratorAsWritten | Source/JoltMover/Private/JoltMovementModifier.cpp:347-350 | as written, the queued-modifiers iterator walks the active modifiers |
| MovementModifier.FindMovementModifierAsWritten | Source/JoltMover/Private/JoltMoverComponent.cpp:896-928 | as written, a lookup with a valid handle searches the active modifiers (twice) and then the state machine's queue, never the queued array |
| MovementModifier.FindMovementModifier | Source/JoltMover/Private/JoltMoverComponent.cpp:896-928 | the corrected lookup finds nothing for an invalid handle and finds a modifier with the handle whenever an active or queued modifier has it |
| MovementModifier.QueuedModifierNeverFound | Source/JoltMover/Private/JoltMovementModifier.cpp:347-350 | as written, a modifier only in the queued array is never found by its handle; the corrected lookup finds it |
| ModifierWire.LoadModifier | Source/JoltMover/Private/JoltMovementModifier.cpp:70-74 | loading a modifier changes only its duration and start time |
| ModifierWire.ModifierRoundTrip | Source/JoltMover/Private/JoltMovementModifier.cpp:70-74 | loading the saved fields restores the duration and the start time and leaves the rest of the stream |
| ModifierWire.SaveSlots | Source/JoltMover/Private/JoltMovementModifier.cpp:484-545 | saving the slots fails exactly when some modifier's type does not derive from the modifier base |
| ModifierWire.SaveArray | Source/JoltMover/Private/JoltMovementModifier.cpp:466-477 | a saved array starts with its count clamped to the budget |
| ModifierWire.SetNumZeroed | Source/JoltMover/Private/JoltMovementModifier.cpp:479-482 | resizing on load keeps the leading slots and pads with null slots |
| ModifierWire.SlotFor | Source/JoltMover/Private/JoltMovementModifier.cpp:511-528 | a slot is loaded into a modifier of the arriving type, which keeps the slot's handle when the slot already held that type and has the invalid handle otherwise |
| ModifierWire.LoadSlots | Source/JoltMover/Private/JoltMovementModifier.cpp:484-545 | a successful slot load leaves an array of exactly the announced length |
| ModifierWire.LoadArray | Source/JoltMover/Private/JoltMovementModifier.cpp:466-546 | a successful array load had a count field and yields exactly that many slots |
| ModifierWire.Arrived | Source/JoltMover/Private/JoltMovementModifier.cpp:511-530 | what arrives is the sent modifier with the receiving slot's handle for that type |
| ModifierWire.LoadSavedSlots | Source/JoltMover/Private/JoltMovementModifier.cpp:484-545 | loading the saved slots from slot i on yields every sent modifier as it arrives, and leaves the rest of the stream |
| ModifierWire.LoadSlotsKeepsPrefix | Source/JoltMover/Private/JoltMovementModifier.cpp:484-545 | loading from slot i on leaves the slots before i alone |
| ModifierWire.ArrayRoundTrip | Source/JoltMover/Private/JoltMovementModifier.cpp:466-546 | an array of at most the budget of replicable modifiers arrives whole and in order, each with the receiving slot's handle when that slot held the same type and the invalid handle otherwise |
| ModifierWire.LoadRefusesForeignModifier | Source/JoltMover/Private/JoltMovementModifier.cpp:497-537 | a modifier type not derived from the base is refused on load with an archive error |
| ModifierWire.GroupRoundTrip | Source/JoltMover/Private/JoltMovementModifier.cpp:110-117 | a group of at most the budget of replicable modifiers received into an empty group arrives whole and in order with every handle invalid |
| SimulationTypes.Other | Source/JoltMover/Public/JoltMoverSimulationTypes.h:297-312 | the two slots of the double buffer are always different ones |
| SimulationTypes.SetBufferedData | Source/JoltMover/Public/JoltMoverSimulationTypes.h:290-295 | after SetBufferedData both the readable and the writable slot hold the value and the read index is unchanged |
| SimulationTypes.SetWritable | Source/JoltMover/Public/JoltMoverSimulationTypes.h:303-306 | writing through the writable slot never changes what is read |
| SimulationTypes.Flip | Source/JoltMover/Public/JoltMoverSimulationTypes.h:309-312 | a flip swaps the readable and writable slots |
| SimulationTypes.WriteThenFlipPublishes | Source/JoltMover/Public/JoltMoverSimulationTypes.h:290-312 | what was written is read after the flip, the value read before becomes the writable one, and two flips cancel out |
| SimulationTypes.ResetToDefaults | Source/JoltMover/Public/JoltMoverSimulationTypes.h:56-61 | a reset end state has no time left, no next mode and no claim that nothing changed |
| SimulationTypes.ResetForgetsTick | Source/JoltMover/Public/JoltMoverSimulationTypes.h:56-61 | a reset end state keeps nothing of what a mode reported before |
| SimulationTypes.DefaultSyncState | Source/JoltMover/Public/JoltMoverSimulationTypes.h:217-220 | a default sync state has no mode and an empty collection |
| SimulationTypes.HasSameContents | Source/JoltMover/Public/JoltMoverSimulationTypes.h:222-229 | sync states with the same contents have the same mode, equal modifier groups and collections of the same size |
| SimulationTypes.ShouldReconcile | Source/JoltMover/Public/JoltMoverSimulationTypes.h:254-259 | a state that needs no correction has the authority's mode, a collection of the same size and modifiers with the same contents |
| SimulationTypes.ReconcileIgnoresLayeredMoves | Source/JoltMover/Public/JoltMoverSimulationTypes.h:254-259 | layered moves never trigger a correction: the authority's moves may differ arbitrarily |
| SimulationTypes.ModifierTypeMismatchReconciles | Source/JoltMover/Public/JoltMoverSimulationTypes.h:254-259 | a different modifier type in some active slot always forces a correction |
| SimulationTypes.Interpolate | Source/JoltMover/Public/JoltMoverSimulationTypes.h:261-269 | interpolation takes the mode, the move groups and the modifiers from To through their assignments, so both layered-move groups keep this state's residual velocity, and only the collection is blended |
| SimulationTypes.InterpolateGroupsComeFromTo | Source/JoltMover/Public/JoltMoverSimulationTypes.h:261-269 | what the mode and the groups end up holding after interpolation depends neither on From, nor on the blend fraction, nor on whether copying in place is enabled |
| SimulationTypes.InterpolateKeepsEveryType | Source/JoltMover/Public/JoltMoverSimulationTypes.h:261-269 | every data type of either end survives interpolation |
| SimulationTypes.Reset | Source/JoltMover/Public/JoltMoverSimulationTypes.h:273-280 | a reset sync state has no mode, an empty collection and every group reset |
| SimulationTypes.ResetIsDefault | Source/JoltMover/Public/JoltMoverSimulationTypes.h:217-280 | a reset sync state is the default-constructed one |
| SimulationTypes.ResetOutput | Source/JoltMover/Private/JoltMoverSimulationTypes.cpp:45-51 | resetting the output gives the default output: sync state reset, input, additional output and events emptied |
| SimulationTypes.InterpolateOutput | Source/JoltMover/Private/JoltMoverSimulationTypes.cpp:53-58 | interpolating an output leaves its events alone, takes To's mode and keeps its own residual velocity |
| SimulationTypes.ResetData | Source/JoltMover/Private/JoltMoverSimulationTypes.cpp:60-64 | a reset record slot holds the default time step and the default output |
| SimulationTypes.Clear | Source/JoltMover/Private/JoltMoverSimulationTypes.cpp:139-145 | a cleared record reads slot 1, holds no events, and both slots are reset |
| SimulationTypes.Add | Source/JoltMover/Private/JoltMoverSimulationTypes.cpp:66-94 | the step lands in the other slot, which becomes current without its events; outside a resimulation the previous slot is the old current one; on a resimulation the previous slot is never later than the step; the step's events end the record's event list |
| SimulationTypes.AddKeepsWellFormed | Source/JoltMover/Private/JoltMoverSimulationTypes.cpp:66-94 | adding keeps the record well formed and the latest output is the added one without its events |
| SimulationTypes.PickFor | Source/JoltMover/Private/JoltMoverSimulationTypes.cpp:103-122 | the result is blended exactly when the time asked for lies strictly between two stored times that are not nearly equal, and then with a fraction in [0, 1] |
| SimulationTypes.CreateInterpolatedResult | Source/JoltMover/Private/JoltMoverSimulationTypes.cpp:101-137 | the result is stamped with the time asked for, the stored slots are unchanged, and exactly the events due by that time leave the record |
| SimulationTypes.BlendIsStrictlyBetween | Source/JoltMover/Private/JoltMoverSimulationTypes.cpp:117-121 | a blend happens only strictly between the stored times, so the clamp never changes the ratio |
| SimulationTypes.OutputEventsAreDueEvents | Source/JoltMover/Private/JoltMoverSimulationTypes.cpp:101-137 | on a well-formed record the output's events are exactly the record's due events, in order, after whatever a blended output already held |
| SimulationTypes.LatestAtOrAfterCurrent | Source/JoltMover/Private/JoltMoverSimulationTypes.cpp:107-111 | asking for the latest time or later gives the latest result, at the time asked for |
| SimulationTypes.EventsConserved | Source/JoltMover/Private/JoltMoverSimulationTypes.cpp:126-136 | every recorded event goes out exactly once: the handed-out and the kept events together are the recorded ones |
| SimulationTypes.ClearedRecordGivesDefaults | Source/JoltMover/Private/JoltMoverSimulationTypes.cpp:139-145 | after Clear any time asked for gives the default output with no events |
| MoverComponent.RegisterMove | Source/JoltMover/Private/JoltMoverComponent.cpp:1679-1690 | after registering, the class will be registered at the next tick; nothing already registered changes, nothing pending is lost, and the class is no longer pending unregistration |
| MoverComponent.RegisterKeepsScheduled | Source/JoltMover/Private/JoltMoverComponent.cpp:1679-1690 | registering another class leaves a class's fate alone |
| MoverComponent.RegisterMoves | Source/JoltMover/Private/JoltMoverComponent.cpp:1692-1698 | registering a list never changes the registered moves before the tick |
| MoverComponent.RegisterMovesSchedulesAll | Source/JoltMover/Private/JoltMoverComponent.cpp:1692-1698 | after registering a list every listed class will be registered, and every class that already would be still will be |
| MoverComponent.UnregisterMoveAsWritten | Source/JoltMover/Private/JoltMoverComponent.cpp:1700-1711 | as written, unregistering withdraws a pending registration and leaves the registered moves alone |
| MoverComponent.UnregisterMove | Source/JoltMover/Private/JoltMoverComponent.cpp:1700-1711 | the corrected unregistration withdraws a pending registration and queues the class for unregistration whenever it is registered, and queues nothing else |
| MoverComponent.PreSimulationTick | Source/JoltMover/Private/JoltMoverComponent.cpp:1043-1064 | after the tick nothing is pending, and a class is registered exactly when it was registered or pending registration and is not pending unregistration |
| MoverComponent.TickApplies | Source/JoltMover/Private/JoltMoverComponent.cpp:1043-1064 | a class is registered after the tick exactly when it was scheduled to be |
| MoverComponent.RegisterThenTickRegisters | Source/JoltMover/Private/JoltMoverComponent.cpp:1679-1690 | registering a class and ticking leaves it registered, whatever was pending |
| MoverComponent.UnregisterThenTickUnregisters | Source/JoltMover/Private/JoltMoverComponent.cpp:1700-1711 | with the corrected test, unregistering a class and ticking leaves it unregistered, whatever was pending |
| MoverComponent.RegisteredMoveSurvivesUnregister | Source/JoltMover/Private/JoltMoverComponent.cpp:1705-1709 | as written, a registered class that is unregistered is still registered after the tick |
| MoverComponent.TickSteps | Source/JoltMover/Private/JoltMoverComponent.cpp:636-771 | a step is a resimulation exactly when its base time is not after the newest step's, nothing else about the step changes, and the newest step is replaced exactly when the step has a later frame or a later time |
| MoverComponent.FreshStepBecomesNewest | Source/JoltMover/Private/JoltMoverComponent.cpp:636-771 | a step ahead of the newest is not a resimulation and becomes the newest |
| MoverComponent.ReplayNeverRewindsNewest | Source/JoltMover/Private/JoltMoverComponent.cpp:636-771 | a replayed step not past the newest is a resimulation and leaves the newest step where it was |
| MoverComponent.RepeatedStepIsResimulation | Source/JoltMover/Private/JoltMoverComponent.cpp:636-771 | ticking the same step again is always a resimulation |
| MoverComponent.AddOne | Source/JoltMover/Private/JoltMoverComponent.cpp:662-676 | one persistent entry adds at most one block, keeps every type present, and what it adds is the prior frame's block or a block of the required type |
| MoverComponent.AddPersistent | Source/JoltMover/Private/JoltMoverComponent.cpp:660-677 | the first pass never removes a type the output had |
| MoverComponent.AddOneProvides | Source/JoltMover/Private/JoltMoverComponent.cpp:662-676 | after one persistent entry its required type is present |
| MoverComponent.AddPersistentProvidesAll | Source/JoltMover/Private/JoltMoverComponent.cpp:660-677 | after the first pass every persistent type can be found, when the prior frame's blocks are of the exact types |
| MoverComponent.PruneAsWritten | Source/JoltMover/Private/JoltMoverComponent.cpp:680-700 | the second pass as written never grows the collection |
| MoverComponent.Prune | Source/JoltMover/Private/JoltMoverComponent.cpp:680-700 | the corrected second pass never grows the collection |
| MoverComponent.PruneKeepsPersistent | Source/JoltMover/Private/JoltMoverComponent.cpp:680-700 | the corrected pass keeps exactly the blocks of persistent types, in order |
| MoverComponent.PruneAsWrittenWhenFlat | Source/JoltMover/Private/JoltMoverComponent.cpp:680-700 | without derived types in the collection, the pass as written keeps exactly the blocks of persistent types |
| MoverComponent.Persist | Source/JoltMover/Private/JoltMoverComponent.cpp:660-700 | after both passes only blocks of persistent types remain |
| MoverComponent.PersistAsWrittenWhenFlat | Source/JoltMover/Private/JoltMoverComponent.cpp:660-700 | without derived types among the blocks, the passes as written and as corrected agree |
| MoverComponent.PersistProvidesExactly | Source/JoltMover/Private/JoltMoverComponent.cpp:660-700 | after the corrected passes every persistent type is there under its own name, given that no block derives from a persistent type without being one and no persistent type derives from another |
| MoverComponent.DerivedPersistentTypeIsPruned | Source/JoltMover/Private/JoltMoverComponent.cpp:680-700 | as written, a persistent type derived from a non-persistent one present in the frame is removed, because removal by the base type takes the derived block that comes first; the corrected pass keeps it |
| MoverComponent.RemoveMovementMode | Source/JoltMover/Private/JoltMoverComponent.cpp:2106-2122 | removal reports whether the name was in the table; afterwards the name is gone, every other mode is as it was, the state machine agrees with the table and the current mode is unchanged |
| MoverComponent.AddMovementModeFromObject | Source/JoltMover/Private/JoltMoverComponent.cpp:2068-2104 | a null or abstract mode is refused and nothing changes; otherwise the name maps to the new mode, which the state machine also registers, and every other mode is as it was |
| MoverComponent.AddThenRemove | Source/JoltMover/Private/JoltMoverComponent.cpp:2068-2122 | adding then removing a mode leaves the other modes as they were and reports the removal |
| MoverComponent.SetUpDirectionOverrideAsWritten | Source/JoltMover/Private/JoltMoverComponent.cpp:2336-2349 | as written, the up-override flag always takes the requested value, even when the direction is refused |
| MoverComponent.SetUpDirectionOverride | Source/JoltMover/Private/JoltMoverComponent.cpp:2336-2349 | the corrected setter leaves the gravity override alone, turns the up override on exactly for a usable direction, and then stores its safe normal |
| MoverComponent.UpDirectionFollowsOverride | Source/JoltMover/Private/JoltMoverComponent.cpp:2351-2360 | with the corrected setter, the up direction is the override's safe normal for a usable direction and the gravity-derived one otherwise |
| MoverComponent.ZeroOverrideKeepsStaleDirection | Source/JoltMover/Private/JoltMoverComponent.cpp:2341-2345 | as written, a zero override after an earlier one keeps the earlier direction in force instead of gravity's, and drops the gravity override |
| MoverDictionary.PresenceBits | Source/JoltMover/Private/JoltBlueprintDataExt.cpp:16-28 | the presence mask has bit i set exactly when the i-th map is non-empty, and only the low six bits can be set |
| MoverDictionary.PresenceBitIff | Source/JoltMover/Private/JoltBlueprintDataExt.cpp:20-25 | reading bit i of the mask tells whether map i is non-empty |
| MoverDictionary.SaveDictionary | Source/JoltMover/Private/JoltBlueprintDataExt.cpp:28-83 | only non-empty maps are written |
| MoverDictionary.LoadDictionary | Source/JoltMover/Private/JoltBlueprintDataExt.cpp:31-83 | a map whose bit is clear arrives empty |
| MoverDictionary.LoadFromSaved | Source/JoltMover/Private/JoltBlueprintDataExt.cpp:31-83 | reading the maps written from any position onwards restores every map from that position and keeps the ones before it |
| MoverDictionary.DictionaryRoundTrip | Source/JoltMover/Private/JoltBlueprintDataExt.cpp:12-87 | every dictionary survives the wire unchanged |
| MoverDictionary.PrimaryWeight | Source/JoltMover/Private/JoltBlueprintDataExt.cpp:132-136 | the closer sample weighs at least one half, and at most one for an alpha within the unit range |
| MoverDictionary.WeightsAreConvex | Source/JoltMover/Private/JoltBlueprintDataExt.cpp:135-136 | the primary and secondary weights are a convex pair with the primary one dominating |
| MoverDictionary.BlendFloats | Source/JoltMover/Private/JoltBlueprintDataExt.cpp:148-159 | the blended floats have exactly the primary sample's keys, and a key missing from the secondary sample keeps the primary value |
| MoverDictionary.BlendVectors | Source/JoltMover/Private/JoltBlueprintDataExt.cpp:161-173 | the blended vectors have exactly the primary sample's keys, and a key missing from the secondary sample keeps the primary value |
| MoverDictionary.BlendRotators | Source/JoltMover/Private/JoltBlueprintDataExt.cpp:175-190 | the blended rotators have exactly the primary sample's keys, and a key missing from the secondary sample keeps the primary value |
| MoverDictionary.InterpolateDictionary | Source/JoltMover/Private/JoltBlueprintDataExt.cpp:127-191 | booleans, integers and names come from the closer sample, which also decides which float, vector and rotator keys exist |
| MoverDictionary.BlendedFloatBetween | Source/JoltMover/Private/JoltBlueprintDataExt.cpp:149-154 | for alpha in the unit range a float present in both samples is blended to a value between them |
| MoverDictionary.MergeBools | Source/JoltMover/Private/JoltBlueprintDataExt.cpp:198-209 | the merged booleans cover both key sets and a key is true exactly when it is true in either map |
| MoverDictionary.KeepExisting | Source/JoltMover/Private/JoltBlueprintDataExt.cpp:211-218 | a merged map covers both key sets, keeps every existing value and adds only the keys it lacked |
| MoverDictionary.MergeDictionary | Source/JoltMover/Private/JoltBlueprintDataExt.cpp:194-256 | booleans are ORed and every other map only gains the keys it lacked |
| MoverDictionary.KeepExistingIdempotent | Source/JoltMover/Private/JoltBlueprintDataExt.cpp:211-218 | merging the same map twice adds nothing more, and merging a map into itself or merging nothing changes nothing |
| MoverDictionary.MergeBoolsIdempotent | Source/JoltMover/Private/JoltBlueprintDataExt.cpp:198-209 | ORing the same booleans twice adds nothing more, and ORing a map into itself or ORing nothing changes nothing |
| MoverDictionary.MergeIdempotent | Source/JoltMover/Private/JoltBlueprintDataExt.cpp:194-256 | merging a dictionary twice equals merging it once, and merging an empty dictionary or a dictionary into itself changes nothing |
| MoverDictionary.ShouldReconcileDictionary | Source/JoltMover/Private/JoltBlueprintDataExt.cpp:259-263 | dictionary data never asks for a correction |
| BasedMovement.GetMovementBaseTransform | Source/JoltMover/Private/MoveLibrary/JoltBasedMovementUtils.cpp:117-145 | no base gives the identity transform and failure; an existing socket gives that socket's transform and success; otherwise the component's root transform, with success only when no bone was named |
| BasedMovement.UnknownBoneFallsBackToRoot | Source/JoltMover/Private/MoveLibrary/JoltBasedMovementUtils.cpp:123-138 | an unknown bone on a real component fails but still reports the component's root transform |
| BasedMovement.TransformWorldLocationToBased | Source/JoltMover/Private/MoveLibrary/JoltBasedMovementUtils.cpp:163-174 | the conversion succeeds exactly when the base transform can be read |
| BasedMovement.Clear | Source/JoltMover/Private/MoveLibrary/JoltBasedMovementUtils.cpp:14-21 | a cleared info has no base, no bone, a zero location and contact point and the identity rotation |
| BasedMovement.UsesSameBase | Source/JoltMover/Private/MoveLibrary/JoltBasedMovementUtils.cpp:33-38 | an info uses a base exactly when it has one and both the base and the bone match |
| BasedMovement.UsesSameBaseAs | Source/JoltMover/Private/MoveLibrary/JoltBasedMovementUtils.cpp:28-31 | comparing two infos compares with the other's base and bone, so both must have a base |
| BasedMovement.SetFromFloorResult | Source/JoltMover/Private/MoveLibrary/JoltBasedMovementUtils.cpp:40-64 | the info keeps a base exactly when the floor is walkable and its transform can be read, then uses that component and bone and records its transform; otherwise it is cleared |
| BasedMovement.SetFromComponent | Source/JoltMover/Private/MoveLibrary/JoltBasedMovementUtils.cpp:66-82 | the info keeps a base exactly when the component's transform can be read, then records that transform and leaves the contact point alone; otherwise it is cleared |
| BasedMovement.SetFromComponentUsesIt | Source/JoltMover/Private/MoveLibrary/JoltBasedMovementUtils.cpp:66-82 | setting from a component makes the info use that component and bone exactly when its transform can be read, and a cleared info uses no base |
| DataModelTypes.RoundToCents | Source/JoltMover/Private/JoltMoverDataModelTypes.cpp:26-28 | a component is stored within half a hundredth of what was given |
| DataModelTypes.RoundToCentsIdempotent | Source/JoltMover/Private/JoltMoverDataModelTypes.cpp:23-28 | a value already at network precision is left alone by rounding |
| DataModelTypes.SetMoveInput | Source/JoltMover/Private/JoltMoverDataModelTypes.cpp:19-29 | the input type is stored as given, each move-input component within half a hundredth of what was given, and no other field changes |
| DataModelTypes.SetMoveInputIdempotent | Source/JoltMover/Private/JoltMoverDataModelTypes.cpp:23-28 | storing a move input read back from an earlier store changes nothing, because it is already at network precision |
| DataModelTypes.ShouldReconcileInputs | Source/JoltMover/Private/JoltMoverDataModelTypes.cpp:120-124 | inputs are corrected exactly when any field differs from the authority's |
| DataModelTypes.InterpolateInputs | Source/JoltMover/Private/JoltMoverDataModelTypes.cpp:126-140 | the jump flags, suggested mode and input type come from From below one half and from To otherwise, and the movement base is left alone |
| DataModelTypes.InterpolateInputsReachesTo | Source/JoltMover/Private/JoltMoverDataModelTypes.cpp:126-140 | at the end of the interval the interpolation reproduces To, apart from the movement base, which interpolation never touches |
| DataModelTypes.MergeInputs | Source/JoltMover/Private/JoltMoverDataModelTypes.cpp:142-147 | a merged input keeps any jump press either input carried, and nothing else changes |
| DataModelTypes.MergeInputsIdempotent | Source/JoltMover/Private/JoltMoverDataModelTypes.cpp:142-147 | merging the same input twice equals merging it once, and merging never releases a press |
| DataModelTypes.DecayInputs | Source/JoltMover/Private/JoltMoverDataModelTypes.cpp:155-163 | the move input is scaled down by the decay, the single-use jump press survives only a negligible decay, and nothing else changes |
| DataModelTypes.DecayEndpoints | Source/JoltMover/Private/JoltMoverDataModelTypes.cpp:155-163 | no decay changes nothing; full decay at the default multiplier stops the move input and drops the single-use jump press |
| DataModelTypes.SaveInputs | Source/JoltMover/Private/JoltMoverDataModelTypes.cpp:65-96 | the movement base and bone are written exactly when the base is in use |
| DataModelTypes.LoadInputs | Source/JoltMover/Private/JoltMoverDataModelTypes.cpp:79-89 | an input read without a base in use has no base and no bone |
| DataModelTypes.InputsRoundTrip | Source/JoltMover/Private/JoltMoverDataModelTypes.cpp:65-96 | inputs survive the wire, except that an unused base arrives as no base and no bone |
| DataModelTypes.ClearBase | Source/JoltMover/Private/JoltMoverDataModelTypes.cpp:399-405 | a cleared state has no base, consistent base bookkeeping, and its kinematics untouched |
| DataModelTypes.UpdateCurrentMovementBase | Source/JoltMover/Private/JoltMoverDataModelTypes.cpp:390-408 | re-reading the base succeeds exactly when its transform can be read, and then records that transform; otherwise the base is dropped |
| DataModelTypes.SetMovementBase | Source/JoltMover/Private/JoltMoverDataModelTypes.cpp:380-387 | setting the base succeeds when it is null or its transform is captured; a failed capture leaves no base at all |
| DataModelTypes.SetMovementBaseThenUpdateIsStable | Source/JoltMover/Private/JoltMoverDataModelTypes.cpp:380-408 | re-capturing a base that did not move reproduces the state |
| DataModelTypes.WorldLocation | Source/JoltMover/Private/JoltMoverDataModelTypes.cpp:425-433 | without a base the stored location is already in world space |
| DataModelTypes.InterpolateMotion | Source/JoltMover/Private/JoltMoverDataModelTypes.cpp:270-333 | beyond the teleport distance the result is To; the result always lies in To's base space |
| DataModelTypes.InterpolateMotionReachesTo | Source/JoltMover/Private/JoltMoverDataModelTypes.cpp:270-333 | interpolating to the end of the interval lands on To whenever the blending primitives do |
| DataModelTypes.ConsistentStatesNeverReadUnset | Source/JoltMover/Private/JoltMoverDataModelTypes.cpp:294-324 | states whose base bookkeeping is consistent never reach the case that reads uninitialised values |

## Left out

- Floating-point arithmetic is taken as exact `real` arithmetic throughout. Float rounding, NaN and infinities are not modelled, and "nearly equal" tests with a tolerance are exact equality unless a member says otherwise.
- ReplicationProxy.Quantize: the time-dilation byte is computed on exact reals. The float rounding of the engine's conversion is not modelled.
- MovementMixer.MixLayeredMove: velocities and the start-time comparison are exact reals, so ties the float code would break by rounding are exact here.
- TickState.GetNextTimeStep: the unspent time and the total simulation time are exact reals. The float accumulation error of the engine's tick is not modelled.
- SimulationTypes.PickFor: the blend fraction is an exact real. The float cast of the time difference is not modelled.
- TickState.GetNextTimeStep: frame counters are unbounded integers. The int32 wrap-around of the pending frame after 2^31 ticks is not modelled.
- WorldManager.FixedTick: its frame counters are unbounded integers, so int32 overflow is not modelled. The same holds for WorldManager.VariableTick.
- RollbackBlackboard.BeginSimulationFrame: the blackboard's uint32 entry index and time stamps are unbounded naturals, so their wrap after 2^32 writes is not modelled.
- InputService.InputKey: a controller's int32 ID is compared with a uint32 key through its bit pattern. Both are modelled, but no other int32-to-uint32 cast in the player controller is.
- SnapshotHistory.ValidSettings: when a power-of-two size is forced, the capacity is limited to at most 2^30. Above that the engine's rounding wraps to INT32_MIN, which RoundUpToPowerOfTwoWrapsAbove2To30 exhibits; a history of that size is not modelled.
- SnapshotHistory.SaveStateForFrame: a negative frame is excluded by a `frame >= 0` requires, and so is it for RestoreStateForFrame and FrameToSlotIndex. The engine indexes the ring with the remainder of a negative frame, which would be a negative index.
- WorldManager.PreTick: requires a positive fixed frame rate. The engine divides by it, so a zero rate would produce an infinite step.
- InputService.ProduceInput: requires the controller's last consumed frame to be at least 0. Before the first input the engine reads the input buffer at INDEX_NONE, and that buffer's indexing operator is not part of this model.
- SimulationTypes.Add: the removal of consumed events uses RemoveAllSwap (JoltMoverSimulationTypes.cpp:83-85). That call may reorder the kept events, but it is modelled as an order-keeping filter, so the model promises an order the engine does not.
- SimulationTypes.CreateInterpolatedResult: the same RemoveAllSwap reordering (JoltMoverSimulationTypes.cpp:134-136) is modelled as an order-keeping filter.
- RollbackBlackboard.TrySet: the public TrySet is not modelled. It calls a SetEntryValue that the code never declares. Only TrySetInternal, the in-simulation write, is modelled.
- MoverDataCollection.Save: saving assumes every block is non-null. A null entry and the archive error path on saving are not modelled; loading does model its error path.
- Engine calls are left out: physics stepping, collision queries, actor and component lookups, logging, tracing, RPC transport and delegates with engine-side bodies. Where their result matters they are parameters.
- MovementModeStateMachine.OnSimulationTick: the substep loop does not model three things in detail:
  - the preferred-mode SetModeImmediately on the first tick;
  - mode changes made by instant effects;
  - transition checks.
  All three are folded into an abstract `reports` function: what each mode reports for a substep. Their effects on the queue are covered only as far as `reports` describes them.
- DataModelTypes.SaveInputs: the packed-vector, fixed-vector and compressed-rotator quantisation of the wire form is not modelled. Fields are sent as exact values.
- DataModelTypes.InterpolateMotion: rotator lerp, quaternion slerp and the transforms between base and world space are parameters. The states' uninitialised values in the no-base case are a parameter `unset`.
- The motion state's ShouldReconcile and NetSerialize are not modelled. Their 5-unit tolerance comparisons are float-geometric.
- MoverDictionary.DictionaryRoundTrip: the trailing stream after the maps is not modelled. The wire form is exactly the presence mask and the present maps.
- DataModelTypes.DecayInputs: the console-variable decay multiplier is a parameter.
- Null events in the output record are not modelled: an event is always a value.
- LayeredMoveInstances.LogicIsFinished: only the default IsFinished of the layered-move logic is modelled. Blueprint overrides of it are left out.
- Clamping maths in the residual velocity is exact real arithmetic.
- The OnStart and OnEnd callbacks of moves and modifiers are not modelled. They are engine-side user code.
- LayeredMoveInstanceWire: only the base fields of instance data (start time, duration) are on the wire. Derived data's NetSerialize overrides are user code and left out.
- The asynchronous flush variants of the layered-move and modifier groups are not modelled. They follow the same rules on a worker thread.
- LayeredMoveWire.LoadArray: after an archive error the engine keeps a partially loaded array. The model returns None and keeps nothing from the failed load.
- The proxy's ReadStateAtTime is not modelled. It forwards to the world manager's GetSyncStateAtTime, which InstanceLifecycle models.
- MoverComponent.SetUpDirectionOverride: the gravity source is a parameter. The gravity-derived up direction is given, not computed.
- MoverComponent.PersistProvidesExactly: it is proved under two hypotheses. No block may derive from a persistent type without being one, and no persistent type may derive from another.
- RollbackService.PreStepRollback: the restore of managed slots is modelled as a set. The order in which the engine walks its bit array is not kept.
- PlayerController.UpdateTimeDilation: the desired buffered frames (4 plus jitter plus loss) is a parameter, because it comes from network statistics.
- TJoltNetworkPredictionBuffer is not part of this model. The frame buffers are modelled as a modulo ring (FrameBuffer).
- SimulationTypes.Interpolate: the copy-in-place console variable is a parameter.
- The cue dispatcher's own state and the NetSerialize bodies of cue types are not modelled. Cue payloads are opaque bits.
- ServerInput: the ForceSendDefaultInputCommands console variable is a parameter.
- The TraceSync calls that the proxy's write makes into the tracing system are not modelled.
- PhysicsTick.TickInstance: the simulation's own tick is a parameter.
- ServerInput: the engine checks that the controller's input buffer of 32 frames matches FIXED_INPUT_BUFFER_SIZE. The model takes that size as given.
- ScheduledEffects: the code schedules with a variable step when there is no world, and uses server time 0 without a game state. Both the world's step mode and the server time are parameters.
- MovementModeStateMachine.AdvanceToNextMode: the blackboard record write and the OnMovementModeChanged broadcast are events in a log. Their listeners are not modelled. The change record is logged on every switch, whether or not the mover component has a rollback blackboard; the source writes it only when one exists (JoltMovementModeStateMachine.cpp:703-711).

## Findings

| source | as written | input that shows it | evidently intended | confidence | as-written member | corrected member |
|---|---|---|---|---|---|---|
| Source/JoltNetworkPrediction/Public/JoltNetworkPredictionSerialization.h:838-855 | the SP sender takes an acked frame as its delta base whenever it is less than a capacity behind the pending frame, even when the frame is ahead of it | an acked frame two frames after the pending frame | as on the AP path, accept only an acked frame before the pending one, so the base slot has not been overwritten | medium, not executed | Replicators.SPDeltaBase, shown by Replicators.SPBaseMayBeAhead | Replicators.SPDeltaBaseGuarded, with Replicators.GuardedBaseSlotIntact |
| Source/JoltNetworkPrediction/Private/JoltNetworkPredictionWorldManager.cpp:334-359 | the replay restores the physics snapshot under the local rollback frame and saves each replayed state under the local frame it started from, while the normal tick saves the state at the start of frame f under f + offset | offset 0: the normal tick at pending frame 4 and the replay of frame 5 both save under key 5; offset 5: a rollback to frame 8 restores key 8, which holds the start of frame 3 | restore and save under the keys the normal tick uses, so a replay starts from the rollback frame's state and a later rollback restores the right one | medium, not executed | WorldManager.Reconcile through WorldManager.ResimStepAsWritten, shown by WorldManager.ResimAsWrittenMiskeys and WorldManager.RestoreAsWrittenMiskeys | WorldManager.ReconcileCorrected through WorldManager.ResimStepAt, with WorldManager.ReplaySnapshotsKeyed and WorldManager.CorrectedReconcileChangesOnlyKeys |
| Source/JoltNetworkPrediction/Private/JoltNetworkPredictionWorldManager.cpp:1008-1010 | the registration lock is a temporary, released before the loop over components runs | two registered components, the first of which unregisters itself during its work | hold the lock for the whole loop, so removals wait until it ends | high, not executed | LagCompRegistration.ComponentLoopAsWritten, shown by LagCompRegistration.AsWrittenLoopSkipsComponent | LagCompRegistration.ComponentLoop, with LagCompRegistration.ComponentLoopAppliesRequests |
| Source/JoltNetworkPrediction/Public/JoltNetworkPredictionWorldManager.h:620-636 | a reconfigured instance carries its pending state over between buffer entries keyed by the view's server frames | fixed offset 5: pending local frame 10 after pending local frame 7 | copy into the entry the view now reads, keyed by local frame | medium, not executed | ServiceSelection.CarryOverAsWritten, shown by ServiceSelection.CarryOverAsWrittenMissesView | ServiceSelection.CarryOver, with ServiceSelection.IndependentCarryOverAgrees |
| Source/JoltNetworkPrediction/Public/Services/JoltNetworkPredictionService_PhysicsTick.inl:270-286 | the last consumed frame is incremented before the time and budget checks that may stop the loop | a 10 ms engine frame with a waiting 16 ms command | consume a command only when it is ticked | high, not executed | PhysicsTick.ClientTickAsWritten, shown by PhysicsTick.AsWrittenConsumesUnticked | PhysicsTick.ClientTick, with PhysicsTick.ClientTickTicksEveryCommand |
| Source/JoltNetworkPrediction/Private/JoltNetworkPredictionWorldManager.cpp:401-403 | deferred service configurations run through a broadcast that calls the newest first | two ConfigureInstance calls for one ID within one locked section | the latest configuration wins | medium, not executed | InstanceLifecycle.FlushAsWritten, shown by InstanceLifecycle.FlushAsWrittenKeepsStaleMask | InstanceLifecycle.Flush, with InstanceLifecycle.FlushAppliesLatestMask |
| Source/JoltNetworkPrediction/Public/JoltNetworkPredictionLagCompensationData.h:140-146 | a stop state added to a full ring puts the cutoff on the stop state itself | a stop state added when the ring is at capacity | put the cutoff on the entry before the stop state, as when the ring has room | medium, not executed | LagCompHistory.Add, shown by LagCompHistory.AddStopCutoffAsWritten | LagCompHistory.AddCutBeforeStop, with LagCompHistory.AddCutsBeforeStop |
| Source/JoltNetworkPrediction/Public/JoltNetworkPredictionProxy.h:239-243 | a load carrying the ID the proxy already has calls the config function without checking that it is bound | an uninitialised proxy that took ID 5 from an earlier load and loads ID 5 again | check the binding as the other branches do | low, not executed | Proxy.LoadAsWritten, shown by Proxy.AsWrittenCallsUnboundConfig | Proxy.Load, with Proxy.ReplicationDeliversId |
| Source/JoltMover/Private/JoltLayeredMove.cpp:15 | saving the finish-velocity settings always writes a cleared has-settings bit | a move with SetVelocity finish settings, sent and loaded into a fresh move | write the bit from the settings, so they replicate | high, not executed | LayeredMoveWire.SaveFinishAsWritten, shown by LayeredMoveWire.FinishSettingsDoNotReplicate | LayeredMoveWire.SaveFinish, with LayeredMoveWire.MoveRoundTrip |
| Source/JoltMover/Private/JoltLayeredMove.cpp:469-542 | gathering residual settings reaches a failed check when an additive move finishes after an overriding one | an overriding SetVelocity move followed by an additive one in the same flush | keep the last override's velocity, as the instance group does | medium, not executed | ResidualVelocity.GatherAsWritten, shown by ResidualVelocity.AdditiveAfterOverrideReachesCheck | ResidualVelocity.ProcessFinishedMove, with ResidualVelocity.LastOverrideWins |
| Source/JoltMover/Private/JoltLayeredMove.cpp:95-100 | a move sent with the default priority loads without resetting the priority field | a default-priority move loaded in place over a move of its type with another priority | give the loaded move priority 0 | low, not executed | LayeredMoveWire.LoadMoveAsWritten, shown by LayeredMoveWire.DefaultPriorityKeepsStaleValue | LayeredMoveWire.LoadMove, with LayeredMoveWire.MoveRoundTrip |
| Source/JoltMover/Private/JoltMovementModifier.cpp:347-350 | the queued-modifier iterator iterates the active modifiers | a modifier that is only queued, looked up by its handle | iterate the queued modifiers | high, not executed | MovementModifier.FindMovementModifierAsWritten, shown by MovementModifier.QueuedModifierNeverFound | MovementModifier.FindMovementModifier |
| Source/JoltMover/Private/JoltMoverComponent.cpp:1700-1711 | unregistering a move queues it only when it is not registered | a registered move class that is unregistered and then ticked | queue it for unregistration when it is registered | high, not executed | MoverComponent.UnregisterMoveAsWritten, shown by MoverComponent.RegisteredMoveSurvivesUnregister | MoverComponent.UnregisterMove, with MoverComponent.UnregisterThenTickUnregisters |
| Source/JoltMover/Private/JoltMoverComponent.cpp:2336-2349 | a zero up-direction override clears the gravity override flag instead of the up-direction one | a usable override followed by a zero override | clear the up-direction override, so gravity decides again | high, not executed | MoverComponent.SetUpDirectionOverrideAsWritten, shown by MoverComponent.ZeroOverrideKeepsStaleDirection | MoverComponent.SetUpDirectionOverride, with MoverComponent.UpDirectionFollowsOverride |
| Source/JoltMover/Private/JoltMoverComponent.cpp:680-700 | pruning non-persistent data removes by type, which takes the first block of that type or any type derived from it | a frame holding a persistent type derived from a non-persistent type that is also present, with the derived block first | remove only blocks of non-persistent types | low, not executed | MoverComponent.PruneAsWritten, shown by MoverComponent.DerivedPersistentTypeIsPruned | MoverComponent.Prune, with MoverComponent.PruneKeepsPersistent |
