# ezEngine editor core, modelled in Dafny

This project models eight pieces of the ezEngine editor and its RTS sample in Dafny and proves
properties of the model. Each piece is one module in one file:

| module | file | models |
|---|---|---|
| `Common` | `common.dfy` | ezUInt32/ezUInt16 wrap-around, selection toggling, `RemoveAtAndSwap`, `IndexOf` |
| `PickingRenderPass` | `picking_render_pass.dfy` | `ezPickingRenderPass`: the draw sequence, the GPU readback hand-over between frames, the single pick (ring search, depth, neighbour positions) and the marquee pick (checkerboard sampling) |
| `SelectionContext` | `selection_context.dfy` | `ezSelectionContext`: press/move/release/key handling, single and marquee selection, drill-down through the object hierarchy and prefab parents |
| `ParticleSystemDescriptor` | `particle_system_descriptor.dfy` | `ezParticleSystemDescriptor`: clearing, default processors and finalizer dependencies, and the versioned `Save`/`Load` stream format |
| `SearchableMenu` | `searchable_menu.dfy` | `ezQtSearchableMenu`: the category tree built from '/'-separated paths, the filtered first-leaf search, activation and the Enter key |
| `DynamicEnums` | `dynamic_enums.dfy` | `ezDynamicEnum`: the value/name table and the registry of named enums |
| `PropertyBaseWidget` | `property_base_widget.dfy` | `ezQtPropertyWidget` and its embedded-class and container subclasses: common values, value-change transactions, the queued refresh, shared map keys, element counts, drop targets, move and delete |
| `ContainerWindow` | `container_window.dfy` | `ezQtContainerWindow`: the registry of document windows, their docks and dock names, application panels, the deferred layout restore and the close event |
| `RTSGameState` | `rts_game_state.dfy` | `RtsGameState`: game-mode switching, camera zoom, unit picking, selection and health-bar colours |

Objects whose fields the engine updates in place (the pass, the selection context, the descriptor,
the menu, the enum table and registry, the widgets, the container window, the game state) are
classes whose methods state their whole new state; the pure computations they rely on are
functions, and the properties that relate several calls are lemmas. External services (the GPU
device, the command accessor of the property grid, the selection manager, the project, the
spatial query of the game world) are modelled as the state or the parameters those methods
read and write: a device texture map, a command log, a selection sequence, a candidate list.

Floating-point values are Dafny reals; where the engine converts a float to `ezUInt32` the model
truncates and wraps explicitly (`FloatToU32`), and the marquee action identifier and the marquee
corners wrap at 32 and 16 bits (`ToU32`, `ToU16`).

The marquee guard at line 362 of the picking pass computes its second index from the first
corner again. `MarqueeAcceptedIff` shows that this is harmless as long as the pick buffers hold
either nothing or a full frame of the current size, which the corrected readback hand-over keeps
(see the first finding).

## Model

| member | source | states |
|---|---|---|
| PickingRenderPass.FloatToU32 | Code/Editor/EditorEngineProcessFramework/PickingRenderPass/PickingRenderPass.cpp:70-71 | The float-to-ezUInt32 cast truncates in-range values and sends -1 (the reset picking position) to 2^32-1 |
| PickingRenderPass.DrawSequence | Code/Editor/EditorEngineProcessFramework/PickingRenderPass/PickingRenderPass.cpp:86-146 | The draw phase opens with the picking (or wireframe picking) shader permutation and closes by restoring the forward permutation |
| PickingRenderPass.DrawPermutationAndOptionalCategories | Code/Editor/EditorEngineProcessFramework/PickingRenderPass/PickingRenderPass.cpp:86-146 | No permutation change happens between the two; the selection is drawn iff selection picking is on, the transparent categories and the lit foreground only when transparent picking is on |
| PickingRenderPass.DrawFilterUse | Code/Editor/EditorEngineProcessFramework/PickingRenderPass/PickingRenderPass.cpp:110-144 | Exactly the opaque, masked and transparent draws use the filter that skips selected objects and grids |
| PickingRenderPass.DrawSequenceInForegroundPasses | Code/Editor/EditorEngineProcessFramework/PickingRenderPass/PickingRenderPass.cpp:121-125 | Every depth-preparation change and every foreground draw lies inside a set-draw-clear-draw block (also lines 140-144) |
| PickingRenderPass.ForegroundPassWindows | Code/Editor/EditorEngineProcessFramework/PickingRenderPass/PickingRenderPass.cpp:121-125 | Inside such blocks, setting the depth-preparation variable is followed by a foreground draw, the clearing and the same draw again |
| PickingRenderPass.DrawForegroundTwice | Code/Editor/EditorEngineProcessFramework/PickingRenderPass/PickingRenderPass.cpp:121-125 | Foreground geometry is drawn twice in a row, first with depth preparation set, then cleared (also lines 140-144) |
| PickingRenderPass.DrawForegroundRepeated | Code/Editor/EditorEngineProcessFramework/PickingRenderPass/PickingRenderPass.cpp:121-125 | The draw after clearing the variable repeats the draw after setting it (also lines 140-144) |
| PickingRenderPass.DrawForegroundUnderPrepareDepth | Code/Editor/EditorEngineProcessFramework/PickingRenderPass/PickingRenderPass.cpp:121-125 | No foreground draw happens unless a depth-preparation change immediately precedes it (also lines 140-144) |
| PickingRenderPass.DrawLitBeforeSimple | Code/Editor/EditorEngineProcessFramework/PickingRenderPass/PickingRenderPass.cpp:114-144 | All lit categories are drawn before any simple (unlit) category |
| PickingRenderPass.FilteredItems | Code/Editor/EditorEngineProcessFramework/PickingRenderPass/PickingRenderPass.cpp:110-115 | A filtered draw submits exactly the batch items whose owner is not selected and that are not grids |
| PickingRenderPass.FilteredSingle | Code/Editor/EditorEngineProcessFramework/PickingRenderPass/PickingRenderPass.cpp:111-112 | One item is submitted iff its owner is not selected and it is not grid render data |
| PickingRenderPass.FilteredItemsAppend | Code/Editor/EditorEngineProcessFramework/PickingRenderPass/PickingRenderPass.cpp:110-115 | The filter decides item by item: filtering two batches in a row submits the two filtered batches concatenated, in order |
| PickingRenderPass.CollectSelection | Code/Editor/EditorEngineProcessFramework/PickingRenderPass/PickingRenderPass.cpp:96-108 | The selection set holds exactly the owners of the render data in the selection batches |
| PickingRenderPass.ConsumeReadbackAsWritten | Code/Editor/EditorEngineProcessFramework/PickingRenderPass/PickingRenderPass.cpp:149-186 | As written: an in-flight readback is taken when the size is unchanged and discarded otherwise, but with nothing in flight the old buffers stay whatever the size |
| PickingRenderPass.ConsumeReadback | Code/Editor/EditorEngineProcessFramework/PickingRenderPass/PickingRenderPass.cpp:149-186 | Corrected consumption: the buffers always hold zero or exactly one frame of the current window size |
| PickingRenderPass.SubmitReadback | Code/Editor/EditorEngineProcessFramework/PickingRenderPass/PickingRenderPass.cpp:188-213 | A readback is in flight after submission iff the window is non-empty, the projection is not NaN and its inversion succeeds; it then records this frame and size |
| PickingRenderPass.ReadbackStepMatches | Code/Editor/EditorEngineProcessFramework/PickingRenderPass/PickingRenderPass.cpp:149-213 | Corrected consumption: consuming then submitting keeps the pending record and the buffers consistent with the window size |
| PickingRenderPass.ReadbackStepAsWritten | Code/Editor/EditorEngineProcessFramework/PickingRenderPass/PickingRenderPass.cpp:164-186 | As written, the buffers fit the new window size iff a readback was in flight, the buffers were empty, or the pixel count is unchanged |
| PickingRenderPass.ReadbackDeliveredNextFrame | Code/Editor/EditorEngineProcessFramework/PickingRenderPass/PickingRenderPass.cpp:149-213 | A frame read back at one size is delivered next frame iff the size is kept; otherwise the buffers come back empty |
| PickingRenderPass.RingRowsNearby | Code/Editor/EditorEngineProcessFramework/PickingRenderPass/PickingRenderPass.cpp:316-342 | Every pixel of a search ring lies inside the image and at most nine pixels away on each axis |
| PickingRenderPass.RingOrderNearby | Code/Editor/EditorEngineProcessFramework/PickingRenderPass/PickingRenderPass.cpp:316-342 | The same for all rings of radius 1 to 9 |
| PickingRenderPass.FirstNonZeroSpec | Code/Editor/EditorEngineProcessFramework/PickingRenderPass/PickingRenderPass.cpp:313-345 | The search result is zero iff every visited pixel holds zero, else the id of a visited pixel all of whose predecessors hold zero |
| PickingRenderPass.FirstNonZeroAppend | Code/Editor/EditorEngineProcessFramework/PickingRenderPass/PickingRenderPass.cpp:313-345 | Searching two pixel lists in turn equals searching the first, then the second when the first finds nothing |
| PickingRenderPass.FirstNonZeroFound | Code/Editor/EditorEngineProcessFramework/PickingRenderPass/PickingRenderPass.cpp:313-345 | The search result, stated by membership: zero iff all visited pixels are zero, otherwise some visited pixel's id |
| PickingRenderPass.PickOrderNearby | Code/Editor/EditorEngineProcessFramework/PickingRenderPass/PickingRenderPass.cpp:313-345 | The whole single-pick search visits only pixels inside the image within nine pixels of the cursor |
| PickingRenderPass.PickedIdNearby | Code/Editor/EditorEngineProcessFramework/PickingRenderPass/PickingRenderPass.cpp:313-345 | A picked id comes from a nearby pixel; a non-zero id under the cursor wins; the pick is zero iff all searched pixels are zero |
| PickingRenderPass.ScanRowForId | Code/Editor/EditorEngineProcessFramework/PickingRenderPass/PickingRenderPass.cpp:323-341 | Scanning one row returns the first non-zero id of that row |
| PickingRenderPass.ScanRing | Code/Editor/EditorEngineProcessFramework/PickingRenderPass/PickingRenderPass.cpp:316-342 | Scanning one ring returns the first non-zero id of its top row, then its bottom row |
| PickingRenderPass.ReadId | Code/Editor/EditorEngineProcessFramework/PickingRenderPass/PickingRenderPass.cpp:313 | Reads the id stored for an in-image pixel at index y*w+x |
| PickingRenderPass.PickOrderStart | Code/Editor/EditorEngineProcessFramework/PickingRenderPass/PickingRenderPass.cpp:313-316 | The search starts at the cursor pixel and only falls back to the rings when that id is zero |
| PickingRenderPass.FindPickId | Code/Editor/EditorEngineProcessFramework/PickingRenderPass/PickingRenderPass.cpp:313-345 | The single pick's id is the first non-zero id in search order (cursor, then rings 1 to 9) |
| PickingRenderPass.SinglePickAcceptedIff | Code/Editor/EditorEngineProcessFramework/PickingRenderPass/PickingRenderPass.cpp:266-275 | With buffers of 0 or w*h entries, the guard accepts exactly positions inside a non-empty image |
| PickingRenderPass.ReadDepth | Code/Editor/EditorEngineProcessFramework/PickingRenderPass/PickingRenderPass.cpp:283 | Reads the depth stored for an in-image pixel |
| PickingRenderPass.NeighbourDepths | Code/Editor/EditorEngineProcessFramework/PickingRenderPass/PickingRenderPass.cpp:287-298 | Each of the four neighbour depths is the neighbour's depth when it is inside the image, else the centre depth |
| PickingRenderPass.NeighbourScreenPositionsAsWritten | Code/Editor/EditorEngineProcessFramework/PickingRenderPass/PickingRenderPass.cpp:300-303 | As written: the four neighbour positions computed in ezUInt32, so x-1 and y-1 wrap at the edge |
| PickingRenderPass.NeighbourScreenPositions | Code/Editor/EditorEngineProcessFramework/PickingRenderPass/PickingRenderPass.cpp:300-303 | Corrected: the neighbours lie one pixel away in each direction; they agree with the as-written ones away from the edges |
| PickingRenderPass.NeighbourWrapsAtEdge | Code/Editor/EditorEngineProcessFramework/PickingRenderPass/PickingRenderPass.cpp:300-303 | At the left or top edge the as-written neighbour lands at 2^32-1 instead of -1 |
| PickingRenderPass.RowSamplesContain | Code/Editor/EditorEngineProcessFramework/PickingRenderPass/PickingRenderPass.cpp:385 | A row samples exactly the pixels from its start column on at even distance |
| PickingRenderPass.CheckerboardSamples | Code/Editor/EditorEngineProcessFramework/PickingRenderPass/PickingRenderPass.cpp:381-401 | The marquee samples exactly the pixels of the half-open rectangle whose distance from the start corner is even |
| PickingRenderPass.AppendNewPrefix | Code/Editor/EditorEngineProcessFramework/PickingRenderPass/PickingRenderPass.cpp:389-396 | Collecting ids keeps the ids already found in front |
| PickingRenderPass.AppendNewMembers | Code/Editor/EditorEngineProcessFramework/PickingRenderPass/PickingRenderPass.cpp:389-396 | Collected ids are exactly the ones found before plus the new ones |
| PickingRenderPass.AppendNewDistinct | Code/Editor/EditorEngineProcessFramework/PickingRenderPass/PickingRenderPass.cpp:389-396 | Collecting never introduces a duplicate id |
| PickingRenderPass.AppendNewSpec | Code/Editor/EditorEngineProcessFramework/PickingRenderPass/PickingRenderPass.cpp:389-396 | Prefix kept, members exact and no duplicates, together |
| PickingRenderPass.AppendNewConcat | Code/Editor/EditorEngineProcessFramework/PickingRenderPass/PickingRenderPass.cpp:389-396 | Collecting in two rounds equals collecting once |
| PickingRenderPass.PixelIdsMembers | Code/Editor/EditorEngineProcessFramework/PickingRenderPass/PickingRenderPass.cpp:387-389 | An id is read iff some listed pixel holds it |
| PickingRenderPass.CheckerboardEmpty | Code/Editor/EditorEngineProcessFramework/PickingRenderPass/PickingRenderPass.cpp:376-383 | Corners in one row or column sample nothing |
| PickingRenderPass.MarqueeIdsSpec | Code/Editor/EditorEngineProcessFramework/PickingRenderPass/PickingRenderPass.cpp:373-403 | The marquee result holds each sampled pixel's id exactly once and nothing else; empty rectangle gives no ids |
| PickingRenderPass.ScanMarqueeRow | Code/Editor/EditorEngineProcessFramework/PickingRenderPass/PickingRenderPass.cpp:385-397 | One row's scan appends the row's sampled ids that were not yet found |
| PickingRenderPass.ScanMarquee | Code/Editor/EditorEngineProcessFramework/PickingRenderPass/PickingRenderPass.cpp:376-401 | The marquee scan yields the distinct ids of the checkerboard samples in first-seen order |
| PickingRenderPass.MarqueeAcceptedIff | Code/Editor/EditorEngineProcessFramework/PickingRenderPass/PickingRenderPass.cpp:357-367 | With buffers of 0 or w*h entries the guard (which repeats the first corner's index) accepts exactly when both corners lie in a non-empty image |
| PickingRenderPass.StaleBuffersAsWritten | Code/Editor/EditorEngineProcessFramework/PickingRenderPass/PickingRenderPass.cpp:164-186 | As written, 2x2 buffers survive a resize to 3x3 and both guards then accept reads past the end of the buffers |
| PickingRenderPass.StaleBuffersCorrected | Code/Editor/EditorEngineProcessFramework/PickingRenderPass/PickingRenderPass.cpp:164-186 | With the corrected consumption the same scenario yields empty buffers, which both guards reject |
| PickingRenderPass.Device.constructor | Code/Editor/EditorEngineProcessFramework/PickingRenderPass/PickingRenderPass.cpp:237-241 | A device starts with no textures |
| PickingRenderPass.Device.CreateTexture | Code/Editor/EditorEngineProcessFramework/PickingRenderPass/PickingRenderPass.cpp:237-241 | Creating a texture adds exactly one fresh handle with the given description |
| PickingRenderPass.Device.DestroyTexture | Code/Editor/EditorEngineProcessFramework/PickingRenderPass/PickingRenderPass.cpp:253-259 | Destroying a texture removes exactly its handle |
| PickingRenderPass.PickingPass.constructor | Code/Editor/EditorEngineProcessFramework/PickingRenderPass/PickingRenderPass.cpp:32-37 | A new pass holds no targets, empty buffers and no readback in flight |
| PickingRenderPass.PickingPass.GetRenderTargetDescriptions | Code/Editor/EditorEngineProcessFramework/PickingRenderPass/PickingRenderPass.cpp:54-59 | Records the view's viewport as the target rectangle and reports success |
| PickingRenderPass.PickingPass.CreateTarget | Code/Editor/EditorEngineProcessFramework/PickingRenderPass/PickingRenderPass.cpp:222-244 | Creates two distinct new textures of the target size: an RGBA8 id target and a float depth target |
| PickingRenderPass.PickingPass.DestroyTarget | Code/Editor/EditorEngineProcessFramework/PickingRenderPass/PickingRenderPass.cpp:246-262 | Destroys exactly the valid targets and invalidates both handles; repeating it changes nothing |
| PickingRenderPass.PickingPass.InitRenderPipelinePass | Code/Editor/EditorEngineProcessFramework/PickingRenderPass/PickingRenderPass.cpp:61-65 | Releases the old targets and creates both anew at the current size |
| PickingRenderPass.PickingPass.Execute | Code/Editor/EditorEngineProcessFramework/PickingRenderPass/PickingRenderPass.cpp:67-214 | With the corrected readback consumption (first finding): sets the window size, issues the draw sequence, rebuilds the selection set, fails on an unready readback, else consumes last frame's readback and submits this one, keeping the pass invariant |
| PickingRenderPass.PickingPass.ReadBackPropertiesSinglePick | Code/Editor/EditorEngineProcessFramework/PickingRenderPass/PickingRenderPass.cpp:264-353 | With the signed neighbour positions (second finding): an accepted pick resets the position and publishes the searched id, depth, normal, ray start and picked position; a rejected one publishes nothing and keeps the position |
| PickingRenderPass.PickingPass.ReadBackPropertiesMarqueePick | Code/Editor/EditorEngineProcessFramework/PickingRenderPass/PickingRenderPass.cpp:355-404 | An accepted marquee resets both corners and publishes the action id and the distinct checkerboard ids; otherwise nothing changes |
| PickingRenderPass.PickingPass.ReadBackProperties | Code/Editor/EditorEngineProcessFramework/PickingRenderPass/PickingRenderPass.cpp:216-220 | Publishes the single pick and the marquee pick the buffers give for the positions held at the call, each iff its guard accepts, and resets exactly the positions it answered |
| Common.ToU32 | Code/Editor/EditorFramework/InputContexts/Implementation/SelectionContext.cpp:77 | Conversion to ezUInt32 wraps modulo 2^32 and leaves in-range values alone |
| Common.ToU16 | Code/Editor/EditorFramework/InputContexts/Implementation/SelectionContext.cpp:234-237 | The ezUInt16 cast keeps the low 16 bits and leaves in-range values alone |
| Common.Toggle | Code/Editor/EditorFramework/InputContexts/Implementation/SelectionContext.cpp:179 | Toggling flips the membership of the object and leaves every other object's membership alone; a selection without duplicates keeps none |
| Common.RemoveFirstSplices | Code/Editor/EditorFramework/InputContexts/Implementation/SelectionContext.cpp:179 | Deselecting removes the object at its first position and keeps the order of the others |
| Common.ToggleTwice | Code/Editor/EditorFramework/InputContexts/Implementation/SelectionContext.cpp:179 | Toggling twice restores a selection that lacked the object, and the membership of one that held it (the object then moves to the end) |
| Common.RemoveAtAndSwap | Code/Tools/Libs/GuiFoundation/ContainerWindow/ContainerWindow.cpp:352-353 | Swap-removal drops one element, moves the last into the hole and keeps all others in place |
| Common.IndexOf | Code/Tools/Libs/GuiFoundation/ContainerWindow/ContainerWindow.cpp:337-339 | The index of the first occurrence, none exactly when absent |
| SelectionContext.Chain | Code/Editor/EditorFramework/InputContexts/Implementation/SelectionContext.cpp:339-341 | An object's parent chain starts at the object, excludes the root and stays in the tree |
| SelectionContext.Lineage | Code/Editor/EditorFramework/InputContexts/Implementation/SelectionContext.cpp:368 | The walk from an object up to and including the root |
| SelectionContext.IsInSelection | Code/Editor/EditorFramework/InputContexts/Implementation/SelectionContext.cpp:328-350 | Finds the nearest selected ancestor-or-self and, when still empty, the child just below it; untouched when none is selected |
| SelectionContext.PrefabParentOrSelf | Code/Editor/EditorFramework/InputContexts/Implementation/SelectionContext.cpp:352-372 | The nearest prefab-created ancestor-or-self on the lineage, or the object itself when there is none |
| SelectionContext.GetPrefabParentOrSelf | Code/Editor/EditorFramework/InputContexts/Implementation/SelectionContext.cpp:352-372 | The upward walk returns that nearest prefab ancestor-or-self |
| SelectionContext.DetermineObjectToSelect | Code/Editor/EditorFramework/InputContexts/Implementation/SelectionContext.cpp:374-422 | The clicked-on object, its prefab parent, the toggled selected ancestor, or the next object down the chain, by modifiers and selection size |
| SelectionContext.DrillDownApproachesPicked | Code/Editor/EditorFramework/InputContexts/Implementation/SelectionContext.cpp:409-420 | Repeated plain clicks walk down the chain one step towards the picked object |
| SelectionContext.HighlightObject | Code/Editor/EditorFramework/InputContexts/Implementation/SelectionContext.cpp:255-266 | Highlights the picked component first, else another picked object, else the picked object; none when nothing was hit |
| SelectionContext.SelectionContextState.constructor | Code/Editor/EditorFramework/InputContexts/Implementation/SelectionContext.cpp:11-19 | Starts idle: no mode, no marquee, no override, empty selection |
| SelectionContext.SelectionContextState.SetPickObjectOverride | Code/Editor/EditorFramework/InputContexts/Implementation/SelectionContext.cpp:32-36 | Registers a pick override and changes nothing else |
| SelectionContext.SelectionContextState.ResetPickObjectOverride | Code/Editor/EditorFramework/InputContexts/Implementation/SelectionContext.cpp:38-45 | Removes the pick override and changes nothing else |
| SelectionContext.SelectionContextState.DoFocusLost | Code/Editor/EditorFramework/InputContexts/Implementation/SelectionContext.cpp:424-434 | Losing focus clears the mode and the space flag and deactivates the context |
| SelectionContext.SelectionContextState.DoMousePressEvent | Code/Editor/EditorFramework/InputContexts/Implementation/SelectionContext.cpp:47-94 | A left press starts a single pick, or a marquee (new action id +23, remove with Ctrl, start point and active flag set) when space is held and no override is set; gizmo presses go to the gizmo; outside the marquee start the active flag and start point are kept, and space, override and selection always are |
| SelectionContext.SelectionContextState.MarqueeMessage | Code/Editor/EditorFramework/InputContexts/Implementation/SelectionContext.cpp:232-239 | The marquee message carries the action id and both corners cut to 16 bits |
| SelectionContext.SelectionContextState.SendMarqueeMsg | Code/Editor/EditorFramework/InputContexts/Implementation/SelectionContext.cpp:186-243 | Sending appends exactly one marquee message and changes nothing else |
| SelectionContext.SelectionContextState.SelectPickedObject | Code/Editor/EditorFramework/InputContexts/Implementation/SelectionContext.cpp:163-184 | A pick goes to the override if any; else Ctrl toggles and a plain click replaces the selection with the object to select |
| SelectionContext.SelectionContextState.DoMouseReleaseEvent | Code/Editor/EditorFramework/InputContexts/Implementation/SelectionContext.cpp:96-137 | Release ends a single pick by applying the click to the selection or handing the object to the pick override, ends a marquee by sending its final add or remove message and keeps space armed after a marquee; any other release changes nothing |
| SelectionContext.SelectionContextState.DoMouseMoveEvent | Code/Editor/EditorFramework/InputContexts/Implementation/SelectionContext.cpp:245-273 | During a marquee a move sends a preview message; otherwise it highlights the object under the cursor; the mode, flags, selection, override and marquee start are kept |
| SelectionContext.SelectionContextState.DoKeyPressEvent | Code/Editor/EditorFramework/InputContexts/Implementation/SelectionContext.cpp:275-316 | Space arms the marquee, Delete deletes the selection, Escape cancels the override, else the marquee, else clears the selection; each branch keeps every other field (selection, active flag, armed space, marquee start), and only Delete and Escape count as handled |
| SelectionContext.SelectionContextState.DoKeyReleaseEvent | Code/Editor/EditorFramework/InputContexts/Implementation/SelectionContext.cpp:318-326 | Releasing space disarms the marquee; nothing else changes |
| ParticleSystemDescriptor.Descriptor.constructor | Code/EnginePlugins/ParticlePlugin/System/ParticleSystemDescriptor.cpp:34-37 | A new descriptor is visible and holds no factories |
| ParticleSystemDescriptor.Descriptor.ClearEmitters | Code/EnginePlugins/ParticlePlugin/System/ParticleSystemDescriptor.cpp:48-56 | Empties the emitters and nothing else |
| ParticleSystemDescriptor.Descriptor.ClearInitializers | Code/EnginePlugins/ParticlePlugin/System/ParticleSystemDescriptor.cpp:58-66 | Empties the initializers and nothing else |
| ParticleSystemDescriptor.Descriptor.ClearBehaviors | Code/EnginePlugins/ParticlePlugin/System/ParticleSystemDescriptor.cpp:68-76 | Empties the behaviors and nothing else |
| ParticleSystemDescriptor.Descriptor.ClearTypes | Code/EnginePlugins/ParticlePlugin/System/ParticleSystemDescriptor.cpp:78-86 | Empties the types and nothing else |
| ParticleSystemDescriptor.Descriptor.ClearFinalizers | Code/EnginePlugins/ParticlePlugin/System/ParticleSystemDescriptor.cpp:88-96 | Empties the finalizers and nothing else |
| ParticleSystemDescriptor.Descriptor.SetupDefaultProcessors | Code/EnginePlugins/ParticlePlugin/System/ParticleSystemDescriptor.cpp:98-147 | Keeps the settings, the factory lists and the existing finalizers, adds a point type when there is no type, and appends Age, Volume and one finalizer per requested finalizer type |
| ParticleSystemDescriptor.DefaultTypeStable | Code/EnginePlugins/ParticlePlugin/System/ParticleSystemDescriptor.cpp:117-121 | Default processing keeps the existing types first and in order, leaves every system with a type, and a second pass adds nothing |
| ParticleSystemDescriptor.DependencySetMembers | Code/EnginePlugins/ParticlePlugin/System/ParticleSystemDescriptor.cpp:123-137 | A finalizer type is requested iff some factory requests it |
| ParticleSystemDescriptor.QueryDependencies | Code/EnginePlugins/ParticlePlugin/System/ParticleSystemDescriptor.cpp:123-137 | Querying factory by factory adds exactly the requested finalizer types |
| ParticleSystemDescriptor.DependencyFinalizers | Code/EnginePlugins/ParticlePlugin/System/ParticleSystemDescriptor.cpp:139-146 | Creates one finalizer per requested type |
| ParticleSystemDescriptor.OneFinalizerPerDependencyExactly | Code/EnginePlugins/ParticlePlugin/System/ParticleSystemDescriptor.cpp:139-146 | There are as many dependency finalizers as requested types, and a type's finalizer is present iff it was requested |
| ParticleSystemDescriptor.AddDependencyFinalizer | Code/EnginePlugins/ParticlePlugin/System/ParticleSystemDescriptor.cpp:139-146 | Adding a new type's finalizer keeps one finalizer per type |
| ParticleSystemDescriptor.FinalizerTypesMembers | Code/EnginePlugins/ParticlePlugin/System/ParticleSystemDescriptor.cpp:139-146 | A type is among the finalizer types iff its finalizer is present |
| ParticleSystemDescriptor.FinalizerTypesAppend | Code/EnginePlugins/ParticlePlugin/System/ParticleSystemDescriptor.cpp:139-146 | Finalizer types of a concatenation are concatenated |
| ParticleSystemDescriptor.DefaultsAppended | Code/EnginePlugins/ParticlePlugin/System/ParticleSystemDescriptor.cpp:100-146 | Appending defaults then dependency finalizers keeps what was there and appends what default processing describes |
| ParticleSystemDescriptor.EncodeFactories | Code/EnginePlugins/ParticlePlugin/System/ParticleSystemDescriptor.cpp:204-230 | Each factory is written as two items: its type name and its payload |
| ParticleSystemDescriptor.WriteFactories | Code/EnginePlugins/ParticlePlugin/System/ParticleSystemDescriptor.cpp:204-230 | Writing factories appends their encoding to the stream |
| ParticleSystemDescriptor.EncodeFactoriesAppend | Code/EnginePlugins/ParticlePlugin/System/ParticleSystemDescriptor.cpp:204-230 | Encoding a concatenation concatenates the encodings |
| ParticleSystemDescriptor.Encode | Code/EnginePlugins/ParticlePlugin/System/ParticleSystemDescriptor.cpp:181-231 | The saved stream has 11 header items plus two per serialised factory; finalizers are not written |
| ParticleSystemDescriptor.Descriptor.Save | Code/EnginePlugins/ParticlePlugin/System/ParticleSystemDescriptor.cpp:181-231 | Save writes exactly the encoding of the descriptor's content |
| ParticleSystemDescriptor.ReadFactories | Code/EnginePlugins/ParticlePlugin/System/ParticleSystemDescriptor.cpp:294-348 | Reads the given number of factories iff the stream holds them |
| ParticleSystemDescriptor.DecodeEncodedFactories | Code/EnginePlugins/ParticlePlugin/System/ParticleSystemDescriptor.cpp:294-348 | Written factories read back as themselves, leaving the rest of the stream |
| ParticleSystemDescriptor.ReadSettings | Code/EnginePlugins/ParticlePlugin/System/ParticleSystemDescriptor.cpp:251-273 | Reads each setting only when the stream's version has it |
| ParticleSystemDescriptor.DecodeEncodedSettings | Code/EnginePlugins/ParticlePlugin/System/ParticleSystemDescriptor.cpp:251-273 | Settings written by Save read back as themselves at the current version |
| ParticleSystemDescriptor.SettingsVersionGating | Code/EnginePlugins/ParticlePlugin/System/ParticleSystemDescriptor.cpp:251-273 | Settings newer than the stream's version keep their prior values |
| ParticleSystemDescriptor.ReadCounts | Code/EnginePlugins/ParticlePlugin/System/ParticleSystemDescriptor.cpp:275-287 | Reads the list counts the stream's version has |
| ParticleSystemDescriptor.DecodeEncodedCounts | Code/EnginePlugins/ParticlePlugin/System/ParticleSystemDescriptor.cpp:275-287 | Written counts read back under any version that writes all four |
| ParticleSystemDescriptor.Descriptor.ReadHeader | Code/EnginePlugins/ParticlePlugin/System/ParticleSystemDescriptor.cpp:242-287 | Reads version, settings into the fields, and counts, as the header decoder defines |
| ParticleSystemDescriptor.DecodeEncodedHeader | Code/EnginePlugins/ParticlePlugin/System/ParticleSystemDescriptor.cpp:242-287 | The saved header reads back as the current version, the settings and the counts |
| ParticleSystemDescriptor.ReadLists | Code/EnginePlugins/ParticlePlugin/System/ParticleSystemDescriptor.cpp:289-348 | Reads the lists after the header, initializers from version 2 and types from version 4 |
| ParticleSystemDescriptor.DecodeEncodedLists | Code/EnginePlugins/ParticlePlugin/System/ParticleSystemDescriptor.cpp:289-348 | Saved lists read back as themselves |
| ParticleSystemDescriptor.ListsVersionGating | Code/EnginePlugins/ParticlePlugin/System/ParticleSystemDescriptor.cpp:289-348 | Lists a version does not write come back empty |
| ParticleSystemDescriptor.SaveLoadRoundTrip | Code/EnginePlugins/ParticlePlugin/System/ParticleSystemDescriptor.cpp:181-349 | Loading what Save wrote restores the content exactly, whatever follows and whatever was loaded before |
| ParticleSystemDescriptor.DecodeOfParts | Code/EnginePlugins/ParticlePlugin/System/ParticleSystemDescriptor.cpp:242-348 | Decoding a stream is decoding its header, then the lists after it |
| ParticleSystemDescriptor.VersionGating | Code/EnginePlugins/ParticlePlugin/System/ParticleSystemDescriptor.cpp:251-348 | A loadable stream has a known version; newer settings keep prior values and newer lists are empty |
| ParticleSystemDescriptor.NewerVersionRefused | Code/EnginePlugins/ParticlePlugin/System/ParticleSystemDescriptor.cpp:149-163 | A stream of a newer version than the current one is refused, as the development-build assertion demands (also lines 243-244) |
| ParticleSystemDescriptor.Descriptor.Load | Code/EnginePlugins/ParticlePlugin/System/ParticleSystemDescriptor.cpp:234-351 | Clears all lists, then succeeds iff the stream decodes; on success holds the decoded content plus default processors, on failure all lists are empty |
| ParticleSystemDescriptor.CopyThroughStream | Code/EnginePlugins/ParticlePlugin/System/ParticleSystemDescriptor.cpp:181-351 | Saving one descriptor and loading into another succeeds and copies settings and lists; only a missing type becomes the point type |
| SearchableMenu.LastIndexOf | Code/Tools/Libs/GuiFoundation/Widgets/Implementation/SearchableMenu.cpp:157 | Finds the last '/' of a path, none exactly when there is none |
| SearchableMenu.TrimLeading | Code/Tools/Libs/GuiFoundation/Widgets/Implementation/SearchableMenu.cpp:83 | Strips leading '/' only |
| SearchableMenu.TrimTrailing | Code/Tools/Libs/GuiFoundation/Widgets/Implementation/SearchableMenu.cpp:83 | Strips trailing '/' only |
| SearchableMenu.TrimSlashes | Code/Tools/Libs/GuiFoundation/Widgets/Implementation/SearchableMenu.cpp:83 | The result neither starts nor ends with '/' and a clean path is unchanged |
| SearchableMenu.ParentCategory | Code/Tools/Libs/GuiFoundation/Widgets/Implementation/SearchableMenu.cpp:81-83 | A non-empty category's parent category is strictly shorter |
| SearchableMenu.LastSegment | Code/Tools/Libs/GuiFoundation/Widgets/Implementation/SearchableMenu.cpp:92-93 | The last path segment contains no '/' |
| SearchableMenu.FileName | Code/Tools/Libs/GuiFoundation/Widgets/Implementation/SearchableMenu.cpp:92-93 | A category row's caption holds no '/' and is the last segment when that has no extension |
| SearchableMenu.SplitCategory | Code/Tools/Libs/GuiFoundation/Widgets/Implementation/SearchableMenu.cpp:81-90 | A clean category is its parent category, '/' and its last segment, and a category without '/' is top-level |
| SearchableMenu.ChainShorter | Code/Tools/Libs/GuiFoundation/Widgets/Implementation/SearchableMenu.cpp:81-90 | The categories made for a category are non-empty and no longer than it, so the recursion ends |
| SearchableMenu.ChildrenFrom | Code/Tools/Libs/GuiFoundation/Widgets/Implementation/SearchableMenu.cpp:98 | Rows appended to a row, in append order |
| SearchableMenu.Children | Code/Tools/Libs/GuiFoundation/Widgets/Implementation/SearchableMenu.cpp:98 | A row's children are the later rows appended to it |
| SearchableMenu.RegisterCategoryKeepsRegistered | Code/Tools/Libs/GuiFoundation/Widgets/Implementation/SearchableMenu.cpp:95-100 | Registering a new category under its parent's row keeps the memo and the tree in agreement |
| SearchableMenu.ChainRegistered | Code/Tools/Libs/GuiFoundation/Widgets/Implementation/SearchableMenu.cpp:87-90 | Every ancestor of a registered category is registered |
| SearchableMenu.KnownCategory | Code/Tools/Libs/GuiFoundation/Widgets/Implementation/SearchableMenu.cpp:74-79 | The empty category yields the root and a known category its remembered row, with nothing added |
| SearchableMenu.MemoGrows | Code/Tools/Libs/GuiFoundation/Widgets/Implementation/SearchableMenu.cpp:100 | Remembering a new category keeps old entries and adds only the category's chain |
| SearchableMenu.NewCategory | Code/Tools/Libs/GuiFoundation/Widgets/Implementation/SearchableMenu.cpp:81-102 | A new category gets a new last row under its parent category's row, captioned with its file name |
| SearchableMenu.CreateCategoryIn | Code/Tools/Libs/GuiFoundation/Widgets/Implementation/SearchableMenu.cpp:72-103 | The row returned exists and no row is lost |
| SearchableMenu.CreateCategoryInCreates | Code/Tools/Libs/GuiFoundation/Widgets/Implementation/SearchableMenu.cpp:72-103 | Creation adds rows only for the category and its missing ancestors, each under its parent's row |
| SearchableMenu.CreateCategoryInKeepsRegistered | Code/Tools/Libs/GuiFoundation/Widgets/Implementation/SearchableMenu.cpp:72-103 | Creation keeps the memo and the tree in agreement and only appends rows |
| SearchableMenu.CreateCategoryInMemoised | Code/Tools/Libs/GuiFoundation/Widgets/Implementation/SearchableMenu.cpp:77-79 | Asking again for the same category returns the same row and changes nothing (also lines 100) |
| SearchableMenu.ItemParent | Code/Tools/Libs/GuiFoundation/Widgets/Implementation/SearchableMenu.cpp:155-163 | An item's parent row is the root without '/', else its category's row (created as needed) |
| SearchableMenu.ItemAddedUnderCategory | Code/Tools/Libs/GuiFoundation/Widgets/Implementation/SearchableMenu.cpp:153-172 | Adding an item appends its row under the category before the last '/' and adds only that category's chain |
| SearchableMenu.CategoryActivationEmitsNothing | Code/Tools/Libs/GuiFoundation/Widgets/Implementation/SearchableMenu.cpp:95-100 | Activating a category row emits nothing (also lines 198-200) |
| SearchableMenu.Visible | Code/Tools/Libs/GuiFoundation/Widgets/Implementation/SearchableMenu.cpp:107-111 | The filter keeps exactly the shown children |
| SearchableMenu.VisibleChildren | Code/Tools/Libs/GuiFoundation/Widgets/Implementation/SearchableMenu.cpp:107-111 | Visible children lie below their parent row |
| SearchableMenu.FirstLeafAmong | Code/Tools/Libs/GuiFoundation/Widgets/Implementation/SearchableMenu.cpp:105-132 | The found leaf lies below the searched row |
| SearchableMenu.FirstLeaf | Code/Tools/Libs/GuiFoundation/Widgets/Implementation/SearchableMenu.cpp:105-132 | The found leaf lies below the searched row |
| SearchableMenu.PreOrderAmong | Code/Tools/Libs/GuiFoundation/Widgets/Implementation/SearchableMenu.cpp:105-132 | The pre-order of the visible rows lies below their parent |
| SearchableMenu.PreOrder | Code/Tools/Libs/GuiFoundation/Widgets/Implementation/SearchableMenu.cpp:105-132 | The pre-order of a row's visible descendants lies below it |
| SearchableMenu.FirstSelectable | Code/Tools/Libs/GuiFoundation/Widgets/Implementation/SearchableMenu.cpp:105-132 | None iff no row of the list is a selectable leaf, else a selectable leaf of the list |
| SearchableMenu.FirstLeafAmongIsPreOrderFirst | Code/Tools/Libs/GuiFoundation/Widgets/Implementation/SearchableMenu.cpp:105-132 | The depth-first search finds the first selectable leaf in the visible pre-order |
| SearchableMenu.FirstLeafIsPreOrderFirst | Code/Tools/Libs/GuiFoundation/Widgets/Implementation/SearchableMenu.cpp:105-132 | The same from a row: the first selectable leaf of its visible pre-order |
| SearchableMenu.Activation | Code/Tools/Libs/GuiFoundation/Widgets/Implementation/SearchableMenu.cpp:188-203 | Activation emits nothing iff the row has no valid variant |
| SearchableMenu.Menu.constructor | Code/Tools/Libs/GuiFoundation/Widgets/Implementation/SearchableMenu.cpp:36-70 | A new menu holds only the invisible root and no memo |
| SearchableMenu.Menu.CreateCategoryMenu | Code/Tools/Libs/GuiFoundation/Widgets/Implementation/SearchableMenu.cpp:72-103 | Returns the row and leaves the rows and memo that category creation describes |
| SearchableMenu.Menu.AddItem | Code/Tools/Libs/GuiFoundation/Widgets/Implementation/SearchableMenu.cpp:153-172 | Appends the item row under its category's row and keeps the menu valid |
| SearchableMenu.Menu.SelectFirstLeaf | Code/Tools/Libs/GuiFoundation/Widgets/Implementation/SearchableMenu.cpp:105-132 | Selects the first selectable leaf in the filtered tree and reports whether there was one; selection untouched otherwise |
| SearchableMenu.Menu.OnItemActivated | Code/Tools/Libs/GuiFoundation/Widgets/Implementation/SearchableMenu.cpp:188-203 | An invalid index emits nothing; otherwise the row's activation is emitted |
| SearchableMenu.Menu.OnEnterPressed | Code/Tools/Libs/GuiFoundation/Widgets/Implementation/SearchableMenu.cpp:205-213 | Enter activates the selection only when exactly one row is selected |
| SearchableMenu.Menu.OnSearchChanged | Code/Tools/Libs/GuiFoundation/Widgets/Implementation/SearchableMenu.cpp:223-234 | Applies the filter, selects the first leaf for non-empty text, and always emits the text |
| SearchableMenu.CreateCategoryTwice | Code/Tools/Libs/GuiFoundation/Widgets/Implementation/SearchableMenu.cpp:77-79 | Two requests for one category yield the same row, captioned with its file name (also lines 100) |
| DynamicEnums.DynamicEnum.constructor | Code/Tools/Libs/GuiFoundation/UIServices/Implementation/DynamicEnums.cpp:5 | A new table holds no value |
| DynamicEnums.DynamicEnum.GetValueName | Code/Tools/Libs/GuiFoundation/UIServices/Implementation/DynamicEnums.cpp:27-35 | A held value's name, or the fixed invalid-value text |
| DynamicEnums.DynamicEnum.Clear | Code/Tools/Libs/GuiFoundation/UIServices/Implementation/DynamicEnums.cpp:7-10 | After clearing no value is valid and every name is the invalid-value text |
| DynamicEnums.DynamicEnum.SetValueAndName | Code/Tools/Libs/GuiFoundation/UIServices/Implementation/DynamicEnums.cpp:12-15 | The value becomes valid with the new name; every other value is unchanged |
| DynamicEnums.DynamicEnum.RemoveValue | Code/Tools/Libs/GuiFoundation/UIServices/Implementation/DynamicEnums.cpp:17-20 | The value becomes invalid; every other value is unchanged |
| DynamicEnums.Registry.constructor | Code/Tools/Libs/GuiFoundation/UIServices/Implementation/DynamicEnums.cpp:5 | The registry starts empty |
| DynamicEnums.Registry.GetDynamicEnum | Code/Tools/Libs/GuiFoundation/UIServices/Implementation/DynamicEnums.cpp:37-40 | Returns the registered table, creating and registering an empty one on first use |
| DynamicEnums.LookupTwice | Code/Tools/Libs/GuiFoundation/UIServices/Implementation/DynamicEnums.cpp:12-15 | Two lookups of one name yield the same table, so a value set through the first is seen through the second (also lines 37-40) |
| PropertyBaseWidget.FirstValid | Code/Tools/Libs/GuiFoundation/PropertyGrid/Implementation/PropertyBaseWidget.cpp:406-411 | The index of the first valid value read |
| PropertyBaseWidget.GetCommonValue | Code/Tools/Libs/GuiFoundation/PropertyGrid/Implementation/PropertyBaseWidget.cpp:377-424 | Compares whole containers for an array or set without element index, else the scalar values; returns the shared value or invalid |
| PropertyBaseWidget.CommonScalarAgrees | Code/Tools/Libs/GuiFoundation/PropertyGrid/Implementation/PropertyBaseWidget.cpp:402-424 | Items all holding one valid value share it |
| PropertyBaseWidget.CommonScalarConflict | Code/Tools/Libs/GuiFoundation/PropertyGrid/Implementation/PropertyBaseWidget.cpp:402-424 | Two different valid values give an invalid common value |
| PropertyBaseWidget.CommonScalarIsShared | Code/Tools/Libs/GuiFoundation/PropertyGrid/Implementation/PropertyBaseWidget.cpp:402-424 | A valid common value is one of the values and every value is it or invalid |
| PropertyBaseWidget.GetCommonVariantSubType | Code/Tools/Libs/GuiFoundation/PropertyGrid/Implementation/PropertyBaseWidget.cpp:349-375 | Reports same-type iff all values share the first value's type, giving that type, else the invalid type |
| PropertyBaseWidget.AttemptsPrefix | Code/Tools/Libs/GuiFoundation/PropertyGrid/Implementation/PropertyBaseWidget.cpp:474-480 | The commands sent are a prefix of those requested |
| PropertyBaseWidget.AttemptsAll | Code/Tools/Libs/GuiFoundation/PropertyGrid/Implementation/PropertyBaseWidget.cpp:474-480 | When all are accepted, all are sent |
| PropertyBaseWidget.AttemptsStopAt | Code/Tools/Libs/GuiFoundation/PropertyGrid/Implementation/PropertyBaseWidget.cpp:474-480 | Sending stops right after the first refused command |
| PropertyBaseWidget.TransactionShape | Code/Tools/Libs/GuiFoundation/PropertyGrid/Implementation/PropertyBaseWidget.cpp:468-486 | A transaction starts first, ends last, is cancelled iff a command was refused (or nothing ran and the status starts failed), finished otherwise |
| PropertyBaseWidget.TransactionRefusedAt | Code/Tools/Libs/GuiFoundation/PropertyGrid/Implementation/PropertyBaseWidget.cpp:474-484 | With the first refusal at n: the commands up to n, then the cancel |
| PropertyBaseWidget.TransactionAllAccepted | Code/Tools/Libs/GuiFoundation/PropertyGrid/Implementation/PropertyBaseWidget.cpp:474-486 | With every command accepted: all commands, then the finish |
| PropertyBaseWidget.ChangeCancelledIffRefused | Code/Tools/Libs/GuiFoundation/PropertyGrid/Implementation/PropertyBaseWidget.cpp:468-488 | A value change is cancelled iff there is no item or some item's SetValue is refused; the commands sent are those SetValues in order |
| PropertyBaseWidget.ObjectAccessor.constructor | Code/Tools/Libs/GuiFoundation/PropertyGrid/Implementation/PropertyBaseWidget.cpp:55-61 | The accessor a widget sends its commands through starts with an empty command log |
| PropertyBaseWidget.HandledIsOneUnit | Code/Tools/Libs/GuiFoundation/PropertyGrid/Implementation/PropertyBaseWidget.cpp:466-510 | A live widget turns a value change into one transaction, opened first and closed last, setting the new value on the items in order, and each temporary event into only its matching begin, finish or cancel command |
| PropertyBaseWidget.RunTransaction | Code/Tools/Libs/GuiFoundation/PropertyGrid/Implementation/PropertyBaseWidget.cpp:472-485 | Appends exactly the transaction's commands to the accessor |
| PropertyBaseWidget.PropertyWidget.constructor | Code/Tools/Libs/GuiFoundation/PropertyGrid/Implementation/PropertyBaseWidget.cpp:44-51 | A new widget is not undead, has shown no value and has no items |
| PropertyBaseWidget.PropertyWidget.PrepareToDie | Code/Tools/Libs/GuiFoundation/PropertyGrid/Implementation/PropertyBaseWidget.cpp:427-434 | Marks a widget undead; it must not have been marked before |
| PropertyBaseWidget.PropertyWidget.SetValueTransaction | Code/Tools/Libs/GuiFoundation/PropertyGrid/Implementation/PropertyBaseWidget.cpp:468-488 | Sends exactly the value-change transaction |
| PropertyBaseWidget.PropertyWidget.PropertyChangedHandler | Code/Tools/Libs/GuiFoundation/PropertyGrid/Implementation/PropertyBaseWidget.cpp:460-511 | An undead widget sends nothing; a live one sends what its event requires |
| PropertyBaseWidget.PropertyWidget.BroadcastValueChanged | Code/Tools/Libs/GuiFoundation/PropertyGrid/Implementation/PropertyBaseWidget.cpp:578-591 | An unchanged value sends nothing; a new one is remembered and, if the widget is live, sent as a change transaction |
| PropertyBaseWidget.BroadcastTwice | Code/Tools/Libs/GuiFoundation/PropertyGrid/Implementation/PropertyBaseWidget.cpp:578-591 | Broadcasting a value just broadcast sends nothing more |
| PropertyBaseWidget.Enqueue | Code/Tools/Libs/GuiFoundation/PropertyGrid/Implementation/PropertyBaseWidget.cpp:845-848 | Queuing adds the property once, keeps the queue duplicate-free and in order |
| PropertyBaseWidget.EnqueueIdempotent | Code/Tools/Libs/GuiFoundation/PropertyGrid/Implementation/PropertyBaseWidget.cpp:845-848 | Queuing a property twice equals queuing it once |
| PropertyBaseWidget.QueueAfterHoldsEachOnce | Code/Tools/Libs/GuiFoundation/PropertyGrid/Implementation/PropertyBaseWidget.cpp:836-849 | After any events the queue holds each property changed on a shown object exactly once |
| PropertyBaseWidget.EmbeddedClassWidget.constructor | Code/Tools/Libs/GuiFoundation/PropertyGrid/Implementation/PropertyBaseWidget.cpp:770-775 | A new widget has nothing queued or refreshed |
| PropertyBaseWidget.EmbeddedClassWidget.PropertyEventHandler | Code/Tools/Libs/GuiFoundation/PropertyGrid/Implementation/PropertyBaseWidget.cpp:836-849 | A change on a shown object queues its property once; undead widgets and other objects are ignored |
| PropertyBaseWidget.EmbeddedClassWidget.FlushQueuedChanges | Code/Tools/Libs/GuiFoundation/PropertyGrid/Implementation/PropertyBaseWidget.cpp:873-881 | Refreshes every queued property in queue order, then empties the queue |
| PropertyBaseWidget.EmbeddedClassWidget.CommandHistoryEventHandler | Code/Tools/Libs/GuiFoundation/PropertyGrid/Implementation/PropertyBaseWidget.cpp:852-871 | Flushes after undo, redo, transaction end or cancel; ignores other events and does nothing when undead |
| PropertyBaseWidget.Keep | Code/Tools/Libs/GuiFoundation/PropertyGrid/Implementation/PropertyBaseWidget.cpp:1336-1342 | Filtering keeps exactly the keys the other object has too |
| PropertyBaseWidget.KeepCounts | Code/Tools/Libs/GuiFoundation/PropertyGrid/Implementation/PropertyBaseWidget.cpp:1336-1342 | Filtering keeps each kept key as often as it occurred |
| PropertyBaseWidget.KeepSameEntries | Code/Tools/Libs/GuiFoundation/PropertyGrid/Implementation/PropertyBaseWidget.cpp:1336-1342 | Filtering two arrangements of the same keys keeps the same keys |
| PropertyBaseWidget.KeepAllShared | Code/Tools/Libs/GuiFoundation/PropertyGrid/Implementation/PropertyBaseWidget.cpp:1330-1343 | A key is kept iff the first object has it and so does every other |
| PropertyBaseWidget.KeyBeforeTotal | Code/Tools/Libs/GuiFoundation/PropertyGrid/Implementation/PropertyBaseWidget.cpp:1344-1345 | The key comparison is a strict total order |
| PropertyBaseWidget.InsertKey | Code/Tools/Libs/GuiFoundation/PropertyGrid/Implementation/PropertyBaseWidget.cpp:1344-1345 | Inserting into sorted keys keeps them sorted and adds exactly that key |
| PropertyBaseWidget.SortKeys | Code/Tools/Libs/GuiFoundation/PropertyGrid/Implementation/PropertyBaseWidget.cpp:1344-1345 | Sorting yields a sorted permutation of the keys |
| PropertyBaseWidget.SortedKeysUnique | Code/Tools/Libs/GuiFoundation/PropertyGrid/Implementation/PropertyBaseWidget.cpp:1344-1345 | Distinct keys have one sorted order, so the swap order before sorting does not matter |
| PropertyBaseWidget.SortedSharedKeys | Code/Tools/Libs/GuiFoundation/PropertyGrid/Implementation/PropertyBaseWidget.cpp:1329-1346 | Sorting the filtered keys, in whatever order the swaps left them, gives the sorted shared keys |
| PropertyBaseWidget.SharedKeysInOrder | Code/Tools/Libs/GuiFoundation/PropertyGrid/Implementation/PropertyBaseWidget.cpp:1329-1346 | A map container's keys are sorted, each once, and exactly those every selected object has |
| PropertyBaseWidget.RemoveMissingKeys | Code/Tools/Libs/GuiFoundation/PropertyGrid/Implementation/PropertyBaseWidget.cpp:1336-1342 | The backward swap-removal leaves exactly the keys the other object has |
| PropertyBaseWidget.SharedKeys | Code/Tools/Libs/GuiFoundation/PropertyGrid/Implementation/PropertyBaseWidget.cpp:1329-1343 | The filtering over all objects leaves exactly the shared keys of the first object |
| PropertyBaseWidget.FewestEntries | Code/Tools/Libs/GuiFoundation/PropertyGrid/Implementation/PropertyBaseWidget.cpp:1350-1356 | The element count is the smallest count of any object, at most the largest ezInt32 |
| PropertyBaseWidget.DropTargetBetween | Code/Tools/Libs/GuiFoundation/PropertyGrid/Implementation/PropertyBaseWidget.cpp:1115-1130 | With increasing element centres, the drop target is the gap between centres above and below the cursor |
| PropertyBaseWidget.DropTargetNone | Code/Tools/Libs/GuiFoundation/PropertyGrid/Implementation/PropertyBaseWidget.cpp:1115-1130 | There is no drop target iff the cursor is level with every centre |
| PropertyBaseWidget.ClosestDropTarget | Code/Tools/Libs/GuiFoundation/PropertyGrid/Implementation/PropertyBaseWidget.cpp:1115-1130 | The scan over element centres finds the drop target |
| PropertyBaseWidget.MoveCommands | Code/Tools/Libs/GuiFoundation/PropertyGrid/Implementation/PropertyBaseWidget.cpp:1492-1519 | Moves are sent only for items whose target lies within their container |
| PropertyBaseWidget.MoveCommandsAllInRange | Code/Tools/Libs/GuiFoundation/PropertyGrid/Implementation/PropertyBaseWidget.cpp:1492-1519 | With every target in range each item gets its move |
| PropertyBaseWidget.MoveCommandsNoneInRange | Code/Tools/Libs/GuiFoundation/PropertyGrid/Implementation/PropertyBaseWidget.cpp:1486-1525 | With no target in range nothing is moved and the transaction finishes empty |
| PropertyBaseWidget.MoveTo | Code/Tools/Libs/GuiFoundation/PropertyGrid/Implementation/PropertyBaseWidget.cpp:1062-1065 | Moving an element to a gap is a permutation that places it there (also lines 1494-1498) |
| PropertyBaseWidget.MoveToOwnPlace | Code/Tools/Libs/GuiFoundation/PropertyGrid/Implementation/PropertyBaseWidget.cpp:1062 | Dropping in front of itself or its successor changes nothing, and for distinct elements only these do |
| PropertyBaseWidget.MoveUpSwaps | Code/Tools/Libs/GuiFoundation/PropertyGrid/Implementation/PropertyBaseWidget.cpp:1160-1163 | Moving up by -1 swaps an element with the one above |
| PropertyBaseWidget.MoveDownSwaps | Code/Tools/Libs/GuiFoundation/PropertyGrid/Implementation/PropertyBaseWidget.cpp:1165-1168 | Moving down by +2 swaps an element with the one below |
| PropertyBaseWidget.DropMoveChangesOrder | Code/Tools/Libs/GuiFoundation/PropertyGrid/Implementation/PropertyBaseWidget.cpp:1050-1071 | A drop moves something iff that changes the element order, and the distance lands it in the target gap |
| PropertyBaseWidget.ContainerWidget.constructor | Code/Tools/Libs/GuiFoundation/PropertyGrid/Implementation/PropertyBaseWidget.cpp:980-1001 | A new container widget has no keys, elements or drop indices |
| PropertyBaseWidget.ContainerWidget.GetRequiredElementCount | Code/Tools/Libs/GuiFoundation/PropertyGrid/Implementation/PropertyBaseWidget.cpp:1325-1366 | A map shows the sorted shared keys; other containers show as many positions as the smallest entry count |
| PropertyBaseWidget.ContainerWidget.RemoveElement | Code/Tools/Libs/GuiFoundation/PropertyGrid/Implementation/PropertyBaseWidget.cpp:1285-1292 | Removes one element, keeping the others in order |
| PropertyBaseWidget.ContainerWidget.AddElement | Code/Tools/Libs/GuiFoundation/PropertyGrid/Implementation/PropertyBaseWidget.cpp:1240-1283 | Inserts one new element at the index |
| PropertyBaseWidget.ContainerWidget.UpdateElements | Code/Tools/Libs/GuiFoundation/PropertyGrid/Implementation/PropertyBaseWidget.cpp:1294-1323 | Trims from the back or appends new elements until there is one per key |
| PropertyBaseWidget.ContainerWidget.UpdateDropIndex | Code/Tools/Libs/GuiFoundation/PropertyGrid/Implementation/PropertyBaseWidget.cpp:1104-1150 | A drag of one of its own elements sets source and target; anything else resets both to -1 |
| PropertyBaseWidget.ContainerWidget.MoveItems | Code/Tools/Libs/GuiFoundation/PropertyGrid/Implementation/PropertyBaseWidget.cpp:1482-1528 | Sends one transaction with the in-range moves |
| PropertyBaseWidget.ContainerWidget.DeleteItems | Code/Tools/Libs/GuiFoundation/PropertyGrid/Implementation/PropertyBaseWidget.cpp:1444-1480 | Sends one transaction removing each item's element |
| PropertyBaseWidget.ContainerWidget.OnElementButtonClicked | Code/Tools/Libs/GuiFoundation/PropertyGrid/Implementation/PropertyBaseWidget.cpp:1152-1180 | Up moves by -1, down by +2, delete removes; help sends nothing |
| PropertyBaseWidget.ContainerWidget.DropEvent | Code/Tools/Libs/GuiFoundation/PropertyGrid/Implementation/PropertyBaseWidget.cpp:1050-1071 | A drop that changes the order sends the move transaction; both drop indices are reset |
| ContainerWindow.Restores | Code/Tools/Libs/GuiFoundation/ContainerWindow/ContainerWindow.cpp:205-209 | Each scheduled restore decrements the counter and runs only when it is no longer positive |
| ContainerWindow.OnlyLastRestoreRuns | Code/Tools/Libs/GuiFoundation/ContainerWindow/ContainerWindow.cpp:123-127 | Of n restores scheduled from zero, only the last one runs (also lines 205-209) |
| ContainerWindow.RestoresFrom | Code/Tools/Libs/GuiFoundation/ContainerWindow/ContainerWindow.cpp:205-209 | From a higher counter no restore of the batch runs except possibly the last, which runs iff the counter equals n |
| ContainerWindow.RemoveWindowKeepsValid | Code/Tools/Libs/GuiFoundation/ContainerWindow/ContainerWindow.cpp:337-358 | Removing a window, its dock and its dock name keeps the registry invariant |
| ContainerWindow.RemovePanelKeepsValid | Code/Tools/Libs/GuiFoundation/ContainerWindow/ContainerWindow.cpp:376-387 | Removing a panel keeps the registry invariant |
| ContainerWindow.ContainerWindowState.DockNamesInUse | Code/Tools/Libs/GuiFoundation/ContainerWindow/ContainerWindow.cpp:410-413 | Names of registered docks are in the name set |
| ContainerWindow.ContainerWindowState.constructor | Code/Tools/Libs/GuiFoundation/ContainerWindow/ContainerWindow.cpp:54-59 | The registry starts empty, with no restore scheduled and no close in progress |
| ContainerWindow.ContainerWindowState.AddDocumentWindow | Code/Tools/Libs/GuiFoundation/ContainerWindow/ContainerWindow.cpp:389-436 | A known window changes nothing; a new one is appended with a new dock named after it, the name joining the name set |
| ContainerWindow.ContainerWindowState.UpdateWindowDecoration | Code/Tools/Libs/GuiFoundation/ContainerWindow/ContainerWindow.cpp:307-313 | Refreshes the registered window's own dock; nothing for an unknown window |
| ContainerWindow.ContainerWindowState.RefreshDecorationsAsWritten | Code/Tools/Libs/GuiFoundation/ContainerWindow/ContainerWindow.cpp:367-373 | As written: the loop refreshes no dock |
| ContainerWindow.ContainerWindowState.RefreshDecorations | Code/Tools/Libs/GuiFoundation/ContainerWindow/ContainerWindow.cpp:367-373 | Corrected: every remaining dock is refreshed |
| ContainerWindow.DecorationAfterRemovalDiffers | Code/Tools/Libs/GuiFoundation/ContainerWindow/ContainerWindow.cpp:367-373 | After removing one of two windows, the as-written loop refreshes nothing while the intended one refreshes the remaining dock |
| ContainerWindow.ContainerWindowState.RemoveDocumentWindow | Code/Tools/Libs/GuiFoundation/ContainerWindow/ContainerWindow.cpp:335-374 | With the corrected decoration refresh (third finding): swap-removes the window and its dock at one index and drops the dock name, refreshing every remaining dock when one open dock is left; unknown windows are ignored |
| ContainerWindow.ContainerWindowState.DocumentWindowRenamed | Code/Tools/Libs/GuiFoundation/ContainerWindow/ContainerWindow.cpp:438-452 | The dock takes the new name, which replaces the old one in the name set |
| ContainerWindow.ContainerWindowState.AddApplicationPanel | Code/Tools/Libs/GuiFoundation/ContainerWindow/ContainerWindow.cpp:454-468 | A new panel is appended and its name joins the name set; a known panel changes nothing |
| ContainerWindow.ContainerWindowState.RemoveApplicationPanel | Code/Tools/Libs/GuiFoundation/ContainerWindow/ContainerWindow.cpp:376-387 | Swap-removes the panel; its name stays in the name set |
| ContainerWindow.ContainerWindowState.EnsureVisible | Code/Tools/Libs/GuiFoundation/ContainerWindow/ContainerWindow.cpp:470-481 | Fails for an unknown window, else shows that window's dock |
| ContainerWindow.ContainerWindowState.EnsureVisibleDocument | Code/Tools/Libs/GuiFoundation/ContainerWindow/ContainerWindow.cpp:483-492 | Shows the first registered window of the document; fails iff none shows it |
| ContainerWindow.ContainerWindowState.EnsureVisiblePanel | Code/Tools/Libs/GuiFoundation/ContainerWindow/ContainerWindow.cpp:494-505 | Fails for an unknown panel; a closed known panel is toggled into view |
| ContainerWindow.ContainerWindowState.ScheduleRestoreWindowLayout | Code/Tools/Libs/GuiFoundation/ContainerWindow/ContainerWindow.cpp:123-127 | Scheduling increments the counter and nothing else |
| ContainerWindow.ContainerWindowState.RestoreWindowLayout | Code/Tools/Libs/GuiFoundation/ContainerWindow/ContainerWindow.cpp:205-283 | Decrements the counter and goes on only when it is no longer positive; the layout then counts as restored iff a project or application layout file is found, and the flag is kept otherwise |
| ContainerWindow.ContainerWindowState.RepairTargetIndex | Code/Tools/Libs/GuiFoundation/ContainerWindow/ContainerWindow.cpp:246-262 | The dock to re-attach to: the first one named Settings, else the last dock other than the closed one |
| ContainerWindow.ContainerWindowState.CloseEvent | Code/Tools/Libs/GuiFoundation/ContainerWindow/ContainerWindow.cpp:134-168 | A nested close returns at once; a refused project close rejects and keeps the registry; otherwise every document window is shut down in order and unregistered, leaving no document window, dock or dock name of theirs, and the flag is restored (also lines 583-584) |
| ContainerWindow.ContainerWindowState.ShutdownDocumentWindows | Code/Tools/Libs/GuiFoundation/ContainerWindow/ContainerWindow.cpp:157-162 | Shuts down the windows registered at the start in order, each unregistering itself, leaving no document window or dock and the registry valid |
| ContainerWindow.ContainerWindowState.ShutdownNext | Code/Tools/Libs/GuiFoundation/ContainerWindow/ContainerWindow.cpp:161 | A window that shuts down is unregistered: the registry keeps exactly the windows and docks not yet shut down, and loses that window's dock name (also lines 583-584) |
| RTSGameState.ModeFor | Data/Samples/RTS/CppSource/RTSPlugin/GameState/RTSGameState.cpp:135-155 | The no-mode request names no mode object; the main-menu, battle and edit-level requests name the main-menu, battle and edit-level mode objects respectively (so distinct requests name distinct objects) |
| RTSGameState.SetActive | Data/Samples/RTS/CppSource/RTSPlugin/GameState/RTSGameState.cpp:196-208 | Switching to a different mode deactivates the old one before activating the new one; the same mode makes no call |
| RTSGameState.TransitionReplays | Data/Samples/RTS/CppSource/RTSPlugin/GameState/RTSGameState.cpp:196-208 | A switch's calls are consistent with the state and end in its target |
| RTSGameState.ActivationsAreBracketed | Data/Samples/RTS/CppSource/RTSPlugin/GameState/RTSGameState.cpp:135-155 | Across queued requests at most one mode is active and the last request's mode ends active (also lines 196-208) |
| RTSGameState.RepeatedRequestIsIdempotent | Data/Samples/RTS/CppSource/RTSPlugin/GameState/RTSGameState.cpp:198-199 | Requesting the same mode again makes no further call |
| RTSGameState.ClampZoom | Data/Samples/RTS/CppSource/RTSPlugin/GameState/RTSGameState.cpp:46-51 | The zoom is clamped to its range, unchanged inside it |
| RTSGameState.PickSelectableObject | Data/Samples/RTS/CppSource/RTSPlugin/GameState/RTSGameState.cpp:345-379 | No ground hit or no qualifying unit picks nothing; otherwise the nearest qualifying unit, earliest on ties |
| RTSGameState.HealthBarColour | Data/Samples/RTS/CppSource/RTSPlugin/GameState/RTSGameState.cpp:302-317 | No bar without maximum health; red below 30 percent, lime from 80 percent |
| RTSGameState.BelowFraction | Data/Samples/RTS/CppSource/RTSPlugin/GameState/RTSGameState.cpp:304-312 | A health ratio is below a threshold iff health is below that share of the maximum |
| RTSGameState.GameState.constructor | Data/Samples/RTS/CppSource/RTSPlugin/GameState/RTSGameState.cpp:17-20 | No mode is active or queued and nothing is selected or hovered |
| RTSGameState.GameState.OnActivation | Data/Samples/RTS/CppSource/RTSPlugin/GameState/RTSGameState.cpp:53-67 | Activation queues the level-editing mode; the hovered unit and the other fields are kept |
| RTSGameState.GameState.OnDeactivation | Data/Samples/RTS/CppSource/RTSPlugin/GameState/RTSGameState.cpp:69-82 | Deactivation deactivates the active mode; the hovered unit and the other fields are kept |
| RTSGameState.GameState.SwitchToGameMode | Data/Samples/RTS/CppSource/RTSPlugin/GameState/RTSGameState.cpp:190-194 | A switch is only queued; the hovered unit and the other fields are kept |
| RTSGameState.GameState.SetActiveGameMode | Data/Samples/RTS/CppSource/RTSPlugin/GameState/RTSGameState.cpp:196-208 | Makes the mode active with the switch's calls; the hovered unit and the other fields are kept |
| RTSGameState.GameState.ActivateQueuedGameMode | Data/Samples/RTS/CppSource/RTSPlugin/GameState/RTSGameState.cpp:135-155 | Activates the queued request's mode; the hovered unit and the other fields are kept |
| RTSGameState.GameState.BeforeWorldUpdate | Data/Samples/RTS/CppSource/RTSPlugin/GameState/RTSGameState.cpp:108-133 | Does nothing while a scene loads; otherwise activates the queued mode and drops dead units from the selection, keeping the live ones in order; the hovered unit and the other fields are kept |
| RTSGameState.GameState.SetCameraZoom | Data/Samples/RTS/CppSource/RTSPlugin/GameState/RTSGameState.cpp:46-51 | Stores and returns the clamped zoom; the hovered unit and the other fields are kept |
| RTSGameState.GameState.OnChangedMainWorld | Data/Samples/RTS/CppSource/RTSPlugin/GameState/RTSGameState.cpp:182-188 | A new world starts with an empty selection; the hovered unit and the other fields are kept |
| RTSGameState.GameState.DetectHoveredSelectable | Data/Samples/RTS/CppSource/RTSPlugin/GameState/RTSGameState.cpp:210-222 | The hovered unit is the one the picking rule finds under the cursor (nearest qualifying, earliest on ties), and none when there is none |
| RTSGameState.GameState.SelectUnits | Data/Samples/RTS/CppSource/RTSPlugin/GameState/RTSGameState.cpp:224-244 | No unit clears the selection; Ctrl toggles the picked unit; a plain click selects only it; the hovered unit and the other fields are kept |
| RTSGameState.RemoveDead | Data/Samples/RTS/CppSource/RTSPlugin/GameState/RTSGameState.cpp:117 | The selection keeps exactly its live units |
| RTSGameState.RemoveDeadSingle | Data/Samples/RTS/CppSource/RTSPlugin/GameState/RTSGameState.cpp:117 | A single unit is kept iff it is alive |
| RTSGameState.RemoveDeadAppend | Data/Samples/RTS/CppSource/RTSPlugin/GameState/RTSGameState.cpp:117 | Dead units are removed one by one: pruning a concatenation is the concatenation of the pruned parts, so the live units keep their order and repetitions |
| RTSGameState.BestPickUnique | Data/Samples/RTS/CppSource/RTSPlugin/GameState/RTSGameState.cpp:345-379 | There is at most one best pick |
| RTSGameState.BestPickExists | Data/Samples/RTS/CppSource/RTSPlugin/GameState/RTSGameState.cpp:345-379 | A qualifying candidate implies a best pick |
| RTSGameState.PickIsUnique | Data/Samples/RTS/CppSource/RTSPlugin/GameState/RTSGameState.cpp:345-379 | Any result meeting the pick's contract is the one the picking rule determines |

## Left out

- The Qt user interface itself: widgets, layouts, painting, cursors, tooltips, context menus, icons, focus handling and translation (`ezTranslate`).
- The GPU: shaders, render contexts, texture contents and the wait for a readback. Readiness is the `idReady`/`depthReady` input of `Execute`, and the fatal assertion on an unready readback is its `failed` result.
- Float arithmetic: values are reals. Unprojection, the triangle normal and normalisation are function parameters of `PickNormal`, which therefore carries no contract of its own and has no row.
- `GetAvgLifetime` (ParticleSystemDescriptor.cpp:166-179) and the editor-graph patch (ParticleSystemDescriptor.cpp:355-369): both are outside the descriptor's state handling.
- RTTI: factory type names are opaque strings and factory payloads opaque values. Looking up an unknown type name is not modelled.
- ParticleSystemDescriptor.NewerVersionRefused: the refusal of a newer version models the development-build assertion (ParticleSystemDescriptor.cpp:244). A release build compiles the assertion out and goes on reading the stream. `Descriptor.Load` follows the development build.
- A malformed or truncated stream makes `Load` fail with empty lists. The engine does not detect a malformed stream; it reads whatever the stream yields.
- `ezQtSearchableMenu`: the sort in `Finalize` (SearchableMenu.cpp:179-186), `OnShow`, `eventFilter` and `OnSpecialKeyPressed`. The tree filter is the `filtered` set of rows given to `OnSearchChanged`.
- `ezQtPropertyWidget`: `UpdateElement`, `UpdatePropertyMetaState`, `ExtendContextMenu`, the widgets for object references, types and variants, and message boxes. Drag-and-drop is reduced to its bookkeeping: element centres are given, pixels are not computed.
- PropertyBaseWidget.PropertyWidget.SetValueTransaction: takes a default-constructed `ezStatus` to hold a failure, so a value change with no items is cancelled. Status.h is not part of this model. `MoveItems` and `DeleteItems` start from an explicit success, so an empty move or delete is finished.
- `ezQtContainerWindow`: `SaveWindowLayout`, `SaveDocumentLayouts`, the settings files, `UpdateWindowTitle`, the status bar, and the event handlers that route engine events to the modelled methods.
- ContainerWindow.ContainerWindowState.RemoveApplicationPanel: the panel's name stays in the dock-name set, as the engine leaves it.
- `RtsGameState`: `PreloadAssets`, `ConfigureMainCamera`, `RenderUnitSelection`, `ComputePickingRay`, `SpawnNamedObjectAt`, `GetStartupSceneFile`, the per-mode update, and the sound-listener update in `BeforeWorldUpdate` (RTSGameState.cpp:124-133), which moves the listener to the main camera and changes no game state. The spatial query becomes the sequence of candidates it visits.
- Common.Toggle: the selection manager's `ToggleObject` is not part of this model. It is modelled as removing a selected object and appending an unselected one.
- Events, delegates, signals and `deleteLater` become recorded outputs (sent messages, command logs, emitted signals) or are left out.
- PickingRenderPass.FloatToU32: states truncation for in-range values and the wrap of the reset value -1 only. Other out-of-range conversions are undefined behaviour in C++ and left unspecified.
- PickingRenderPass.PickingPass.Execute: requires the window's sides to fit ezInt32 and its pixel count to fit ezUInt32 (`DimsFit`). Larger windows overflow the engine's index arithmetic and are not modelled.
- ParticleSystemDescriptor.Descriptor.Save: requires each list count to fit ezUInt32 (`CountsFit`).
- RTSGameState.HealthBarColour: the contract states the missing bar and the red and lime bands; the orange and yellow bands in between are fixed only by the function's body.
- PickingRenderPass.PickingPass.Execute: consumes the previous readback with the corrected `ConsumeReadback` of the first finding, so it does not have the stale-buffer behaviour of the code as written. That behaviour is `ConsumeReadbackAsWritten`, described by `ReadbackStepAsWritten` and `StaleBuffersAsWritten`.
- PickingRenderPass.PickingPass.ReadBackPropertiesSinglePick: takes the neighbours of the picked pixel in signed arithmetic (`NeighbourScreenPositions`, second finding), so the normal at x = 0 or y = 0 is not the one the code as written computes. `ReadBackProperties` and `SinglePickAnswer` inherit this. The as-written positions are `NeighbourScreenPositionsAsWritten`.
- PickingRenderPass.ReadbackStepMatches: holds for the corrected consumption only. For the code as written see `ReadbackStepAsWritten`.
- ContainerWindow.ContainerWindowState.RemoveDocumentWindow: refreshes each remaining window's decoration (`RefreshDecorations`, third finding). As written no dock is refreshed (`RefreshDecorationsAsWritten`). `CloseEvent` removes windows through it, but the refreshed docks do not enter its contract.
- ContainerWindow.ContainerWindowState.CloseEvent: `SaveWindowLayout`, `SaveDocumentLayouts`, `SaveProjectState`, `DisableWindowLayoutSaving` and the deferred deletion of the dock manager are not modelled. Whether a shutdown leaves one open dock in its area is the `singleOpenDockLeft` input.
- SearchableMenu.ParentCategory: models `PathParentDirectory` for '/'-separated paths only. ezStringBuilder's path cleaning ('\' separators, empty, '.' and '..' segments) is not part of this model.
- SearchableMenu.FileName: models `GetFileName` for '/'-separated paths only, with the same limits as `ParentCategory`.
- SearchableMenu.Menu.CreateCategoryMenu: builds its rows from `ParentCategory` and `FileName`, so a category path holding '\', empty, '.' or '..' segments is not modelled.
- SearchableMenu.Menu.AddItem: splits the internal path at its last '/' and creates the category through `CreateCategoryMenu`, with the same limits.
- SelectionContext.SelectionContextState.DoMouseReleaseEvent: the Ctrl+middle-button release that opens the document of the picked object (`OpenDocumentForPickedObject`, SelectionContext.cpp:98-106) is not modelled. Opening documents is outside the selection context's state.
- SelectionContext.SelectionContextState: the destructor, which calls a registered pick override with no object (SelectionContext.cpp:21-30), is not modelled. Dafny has no destructors; `ResetPickObjectOverride` covers the reset.
- SelectionContext: the gizmo, the camera and the marquee gizmo's geometry. A press on a gizmo handle is the `onGizmoHandle` input, and the gizmo's answer is `gizmoAnswer`.

## Findings

| source | as written | input that shows it | evidently intended | confidence | as-written member | corrected member |
|---|---|---|---|---|---|---|
| Code/Editor/EditorEngineProcessFramework/PickingRenderPass/PickingRenderPass.cpp:164-186 | With no readback in flight, the pick buffers are kept even when the window size changed. | A 2x2 readback is taken, the next frame has a NaN projection (nothing submitted), then the window grows to 3x3. A pick at (2,0) passes the guard and reads the depth at index 5 of a 4-entry buffer; the marquee (0,0)-(2,2) passes and samples index 4. | Buffers of another size are discarded whether or not a readback is in flight. | not executed | PickingRenderPass.ConsumeReadbackAsWritten, PickingRenderPass.StaleBuffersAsWritten | PickingRenderPass.ConsumeReadback, PickingRenderPass.StaleBuffersCorrected |
| Code/Editor/EditorEngineProcessFramework/PickingRenderPass/PickingRenderPass.cpp:300-303 | `x - 1` and `y - 1` are computed in ezUInt32 before the float conversion. | A pick at x = 0 unprojects its left neighbour at screen x = 4294967295 instead of -1 (likewise y = 0). | The neighbour one pixel to the left (above), in signed arithmetic. | not executed | PickingRenderPass.NeighbourScreenPositionsAsWritten, PickingRenderPass.NeighbourWrapsAtEdge | PickingRenderPass.NeighbourScreenPositions |
| Code/Tools/Libs/GuiFoundation/ContainerWindow/ContainerWindow.cpp:367-373 | The decoration loop after a removal passes the removed window to `UpdateWindowDecoration` on every iteration. | Two registered windows; the second one added is removed while one open dock remains: the loop refreshes no dock, since the removed window is no longer registered. | Each remaining window's own decoration is refreshed. | not executed | ContainerWindow.ContainerWindowState.RefreshDecorationsAsWritten, ContainerWindow.DecorationAfterRemovalDiffers | ContainerWindow.ContainerWindowState.RefreshDecorations |
