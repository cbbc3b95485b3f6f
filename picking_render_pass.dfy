/**
 * The editor's picking render pass: it draws object ids and depth into two
 * render targets, reads them back from the GPU one frame later, and answers
 * single-pixel picks and marquee (rectangle) picks from the read-back buffers.
 */
module PickingRenderPass {
  import opened Common

  // ---------------------------------------------------------------- values

  datatype Vec3 = Vec3(x: real, y: real, z: real)

  function AddVec(a: Vec3, b: Vec3): Vec3 {
    Vec3(a.x + b.x, a.y + b.y, a.z + b.z)
  }

  /** A 4x4 matrix, row-major. Its arithmetic is not modelled. */
  datatype Mat4 = Mat4(entries: seq<real>)

  function ZeroMatrix(): (m: Mat4)
    ensures |m.entries| == 16 && forall i :: 0 <= i < 16 ==> m.entries[i] == 0.0
  {
    Mat4(seq(16, _ => 0.0))
  }

  /** A floating-point screen position (ezVec2). */
  datatype Pos = Pos(x: real, y: real)

  /** The viewport rectangle; only its size matters here. */
  datatype Rect = Rect(width: real, height: real)

  /** C++ float to ezUInt32 conversion: truncation toward zero, negative values wrap. */
  function FloatToU32(v: real): (r: u32)
    ensures 0.0 <= v < U32_MODULUS as real ==> r == v.Floor
    ensures v == -1.0 ==> r == U32_MODULUS - 1
  {
    if v >= 0.0 then ToU32(v.Floor) else ToU32(-((-v).Floor))
  }

  /** Window sizes the model handles: both sides fit ezInt32 (the ring search converts
      them) and the pixel count fits ezUInt32 (indices are ezUInt32). */
  predicate DimsFit(w: int, h: int) {
    0 <= w < 0x8000_0000 && 0 <= h < 0x8000_0000 && w * h < U32_MODULUS
  }

  // ------------------------------------------------------------ draw order

  datatype ViewRenderMode = WireframeColor | WireframeMonochrome | OtherRenderMode

  datatype RenderPassPermutation = RenderPassPicking | RenderPassPickingWireframe | RenderPassForward

  datatype Category =
    | LitOpaque | LitMasked | LitTransparent | LitForeground
    | Selection | SimpleOpaque | SimpleTransparent | SimpleForeground

  /** The commands the pass issues to the render context while drawing. */
  datatype DrawCommand =
    | SetRenderPass(pass: RenderPassPermutation)
    | SetPrepareDepth(on: bool)
    | RenderCategory(category: Category, filtered: bool)

  function PickingPermutation(mode: ViewRenderMode): RenderPassPermutation {
    if mode == WireframeColor || mode == WireframeMonochrome then RenderPassPickingWireframe else RenderPassPicking
  }

  predicate IsForeground(c: Category) { c == LitForeground || c == SimpleForeground }
  predicate IsTransparent(c: Category) { c == LitTransparent || c == SimpleTransparent }
  predicate IsSimple(c: Category) { c == SimpleOpaque || c == SimpleTransparent || c == SimpleForeground }

  /** The categories whose draws skip selected objects and grids. */
  predicate IsFilteredCategory(c: Category) {
    c == LitOpaque || c == LitMasked || c == LitTransparent || c == SimpleTransparent
  }

  predicate Draws(cmd: DrawCommand, c: Category) {
    cmd.RenderCategory? && cmd.category == c
  }

  /** A foreground category's two draws: first with the depth-preparation variable set,
      then with it cleared. */
  function ForegroundPass(c: Category): seq<DrawCommand> {
    [SetPrepareDepth(true), RenderCategory(c, false), SetPrepareDepth(false), RenderCategory(c, false)]
  }

  /** The lit draws: opaque and masked, then transparent and foreground when picking
      transparent geometry. */
  function LitDraws(pickTransparent: bool): seq<DrawCommand> {
    [RenderCategory(LitOpaque, true), RenderCategory(LitMasked, true)]
    + if pickTransparent then [RenderCategory(LitTransparent, true)] + ForegroundPass(LitForeground) else []
  }

  function SelectionDraws(pickSelected: bool): seq<DrawCommand> {
    if pickSelected then [RenderCategory(Selection, false)] else []
  }

  /** The simple draws: opaque, transparent when picking transparent geometry, foreground. */
  function SimpleDraws(pickTransparent: bool): seq<DrawCommand> {
    [RenderCategory(SimpleOpaque, false)]
    + (if pickTransparent then [RenderCategory(SimpleTransparent, true)] else [])
    + ForegroundPass(SimpleForeground)
  }

  /** The draw phase of Execute (lines 86-146). */
  function DrawSequence(mode: ViewRenderMode, pickTransparent: bool, pickSelected: bool): (cmds: seq<DrawCommand>)
    ensures |cmds| >= 2
    ensures cmds[0] == SetRenderPass(PickingPermutation(mode))
    ensures cmds[|cmds| - 1] == SetRenderPass(RenderPassForward)
  {
    [SetRenderPass(PickingPermutation(mode))] + LitDraws(pickTransparent) + SelectionDraws(pickSelected)
    + SimpleDraws(pickTransparent) + [SetRenderPass(RenderPassForward)]
  }

  /** What a draw between the two permutation changes may be: no permutation change,
      filtering exactly for the filtered categories, the selection only when picking it,
      the transparent categories and the lit foreground only when picking transparent
      geometry. */
  predicate AllowedDraw(c: DrawCommand, pickTransparent: bool, pickSelected: bool) {
    && !c.SetRenderPass?
    && (c.RenderCategory? ==> (c.filtered <==> IsFilteredCategory(c.category)))
    && (c.RenderCategory? && c.category == Selection ==> pickSelected)
    && (c.RenderCategory? && (IsTransparent(c.category) || c.category == LitForeground) ==> pickTransparent)
  }

  lemma LitDrawsAllowed(pickTransparent: bool, pickSelected: bool)
    ensures forall c :: c in LitDraws(pickTransparent) ==> AllowedDraw(c, pickTransparent, pickSelected)
  {
  }

  lemma SimpleDrawsAllowed(pickTransparent: bool, pickSelected: bool)
    ensures forall c :: c in SimpleDraws(pickTransparent) ==> AllowedDraw(c, pickTransparent, pickSelected)
  {
  }

  /** Every draw between the two permutation changes is allowed. */
  lemma CategoryDrawsMembers(pickTransparent: bool, pickSelected: bool)
    ensures forall c :: c in LitDraws(pickTransparent) + SelectionDraws(pickSelected) + SimpleDraws(pickTransparent) ==>
      AllowedDraw(c, pickTransparent, pickSelected)
  {
    LitDrawsAllowed(pickTransparent, pickSelected);
    SimpleDrawsAllowed(pickTransparent, pickSelected);
  }

  /** The draws strictly between the first and the last command. */
  lemma DrawSequenceMiddle(mode: ViewRenderMode, pickTransparent: bool, pickSelected: bool, i: nat)
    requires 0 < i < |DrawSequence(mode, pickTransparent, pickSelected)| - 1
    ensures DrawSequence(mode, pickTransparent, pickSelected)[i]
      in LitDraws(pickTransparent) + SelectionDraws(pickSelected) + SimpleDraws(pickTransparent)
  {
    var middle := LitDraws(pickTransparent) + SelectionDraws(pickSelected) + SimpleDraws(pickTransparent);
    assert DrawSequence(mode, pickTransparent, pickSelected)
      == [SetRenderPass(PickingPermutation(mode))] + middle + [SetRenderPass(RenderPassForward)];
    assert DrawSequence(mode, pickTransparent, pickSelected)[i] == middle[i - 1];
  }

  /** The permutation is set to picking first and back to forward last and never in
      between, so every draw runs under the picking permutation; the selection is drawn
      exactly when picking the selection is on, the transparent categories and the lit
      foreground exactly when picking transparent geometry is on. */
  lemma DrawPermutationAndOptionalCategories(mode: ViewRenderMode, pickTransparent: bool, pickSelected: bool)
    ensures var cmds := DrawSequence(mode, pickTransparent, pickSelected);
      (forall i :: 0 < i < |cmds| - 1 ==> !cmds[i].SetRenderPass?) &&
      ((exists i :: 0 <= i < |cmds| && Draws(cmds[i], Selection)) <==> pickSelected) &&
      ((exists i :: 0 <= i < |cmds| && Draws(cmds[i], LitTransparent)) <==> pickTransparent) &&
      (forall i :: (0 <= i < |cmds| && cmds[i].RenderCategory? &&
         (IsTransparent(cmds[i].category) || cmds[i].category == LitForeground)) ==> pickTransparent)
  {
    var cmds := DrawSequence(mode, pickTransparent, pickSelected);
    CategoryDrawsMembers(pickTransparent, pickSelected);
    forall i | 0 < i < |cmds| - 1
      ensures !cmds[i].SetRenderPass?
      ensures cmds[i].RenderCategory? && cmds[i].category == Selection ==> pickSelected
      ensures cmds[i].RenderCategory? && (IsTransparent(cmds[i].category) || cmds[i].category == LitForeground)
        ==> pickTransparent
    {
      DrawSequenceMiddle(mode, pickTransparent, pickSelected, i);
    }
    if pickSelected {
      assert Draws(cmds[if pickTransparent then 8 else 3], Selection);
    }
    if pickTransparent {
      assert Draws(cmds[3], LitTransparent);
    }
  }

  /** The opaque, masked and transparent draws, and only they, skip selected objects and grids. */
  lemma DrawFilterUse(mode: ViewRenderMode, pickTransparent: bool, pickSelected: bool)
    ensures var cmds := DrawSequence(mode, pickTransparent, pickSelected);
      forall i :: 0 <= i < |cmds| && cmds[i].RenderCategory? ==>
        (cmds[i].filtered <==> IsFilteredCategory(cmds[i].category))
  {
    var cmds := DrawSequence(mode, pickTransparent, pickSelected);
    CategoryDrawsMembers(pickTransparent, pickSelected);
    forall i | 0 < i < |cmds| - 1 && cmds[i].RenderCategory?
      ensures cmds[i].filtered <==> IsFilteredCategory(cmds[i].category)
    {
      DrawSequenceMiddle(mode, pickTransparent, pickSelected, i);
    }
  }

  /** A command the foreground blocks are about: a depth-preparation change or a foreground draw. */
  predicate ForegroundRelated(c: DrawCommand) {
    c.SetPrepareDepth? || (c.RenderCategory? && IsForeground(c.category))
  }

  /** Every depth-preparation change and every foreground draw sits in a `ForegroundPass`. */
  predicate InForegroundPasses(cmds: seq<DrawCommand>)
    decreases |cmds|
  {
    if cmds == [] then true
    else if ForegroundRelated(cmds[0]) then
      |cmds| >= 4 && cmds[1].RenderCategory? && IsForeground(cmds[1].category)
      && cmds[..4] == ForegroundPass(cmds[1].category) && InForegroundPasses(cmds[4..])
    else InForegroundPasses(cmds[1..])
  }

  lemma {:induction false} InForegroundPassesPlain(cmds: seq<DrawCommand>)
    requires forall i :: 0 <= i < |cmds| ==> !ForegroundRelated(cmds[i])
    ensures InForegroundPasses(cmds)
    decreases |cmds|
  {
    if cmds != [] {
      InForegroundPassesPlain(cmds[1..]);
    }
  }

  lemma InForegroundPassesPass(c: Category)
    requires IsForeground(c)
    ensures InForegroundPasses(ForegroundPass(c))
  {
    assert ForegroundPass(c)[4..] == [];
  }

  lemma {:induction false} InForegroundPassesAppend(a: seq<DrawCommand>, b: seq<DrawCommand>)
    requires InForegroundPasses(a) && InForegroundPasses(b)
    ensures InForegroundPasses(a + b)
    decreases |a|
  {
    if a == [] {
      assert a + b == b;
    } else if ForegroundRelated(a[0]) {
      InForegroundPassesAppend(a[4..], b);
      assert (a + b)[..4] == a[..4] && (a + b)[4..] == a[4..] + b;
    } else {
      InForegroundPassesAppend(a[1..], b);
      assert (a + b)[1..] == a[1..] + b;
    }
  }

  lemma DrawSequenceInForegroundPasses(mode: ViewRenderMode, pickTransparent: bool, pickSelected: bool)
    ensures InForegroundPasses(DrawSequence(mode, pickTransparent, pickSelected))
  {
    var solid := [RenderCategory(LitOpaque, true), RenderCategory(LitMasked, true)];
    InForegroundPassesPlain(solid);
    if pickTransparent {
      InForegroundPassesPlain([RenderCategory(LitTransparent, true)]);
      InForegroundPassesPass(LitForeground);
      InForegroundPassesAppend([RenderCategory(LitTransparent, true)], ForegroundPass(LitForeground));
      InForegroundPassesAppend(solid, [RenderCategory(LitTransparent, true)] + ForegroundPass(LitForeground));
    } else {
      assert LitDraws(pickTransparent) == solid + [];
    }
    var simple := [RenderCategory(SimpleOpaque, false)] + (if pickTransparent then [RenderCategory(SimpleTransparent, true)] else []);
    InForegroundPassesPlain(simple);
    InForegroundPassesPass(SimpleForeground);
    InForegroundPassesAppend(simple, ForegroundPass(SimpleForeground));
    InForegroundPassesPlain(SelectionDraws(pickSelected));
    var first := [SetRenderPass(PickingPermutation(mode))];
    var last := [SetRenderPass(RenderPassForward)];
    InForegroundPassesPlain(first);
    InForegroundPassesPlain(last);
    InForegroundPassesAppend(first, LitDraws(pickTransparent));
    InForegroundPassesAppend(first + LitDraws(pickTransparent), SelectionDraws(pickSelected));
    InForegroundPassesAppend(first + LitDraws(pickTransparent) + SelectionDraws(pickSelected), SimpleDraws(pickTransparent));
    InForegroundPassesAppend(first + LitDraws(pickTransparent) + SelectionDraws(pickSelected) + SimpleDraws(pickTransparent), last);
  }

  /** Within foreground passes: a set depth-preparation variable is followed by a foreground
      draw, the clearing of the variable and the same draw again, and a foreground draw
      always comes right after a depth-preparation change. */
  lemma {:induction false} ForegroundPassWindows(cmds: seq<DrawCommand>)
    requires InForegroundPasses(cmds)
    ensures forall i :: 0 <= i < |cmds| && cmds[i] == SetPrepareDepth(true) ==>
      i + 3 < |cmds| && cmds[i + 2] == SetPrepareDepth(false) &&
      cmds[i + 1].RenderCategory? && IsForeground(cmds[i + 1].category) && cmds[i + 3] == cmds[i + 1]
    ensures forall i :: 0 <= i < |cmds| && cmds[i].RenderCategory? && IsForeground(cmds[i].category) ==>
      0 < i && cmds[i - 1].SetPrepareDepth?
    decreases |cmds|
  {
    if cmds != [] {
      var k := if ForegroundRelated(cmds[0]) then 4 else 1;
      var rest := cmds[k..];
      ForegroundPassWindows(rest);
    }
  }

  /** Foreground geometry is drawn twice in a row: first while preparing depth, then not. */
  lemma DrawForegroundTwice(mode: ViewRenderMode, pickTransparent: bool, pickSelected: bool)
    ensures var cmds := DrawSequence(mode, pickTransparent, pickSelected);
      forall i :: 0 <= i < |cmds| && cmds[i] == SetPrepareDepth(true) ==>
        i + 3 < |cmds| && cmds[i + 2] == SetPrepareDepth(false) &&
        cmds[i + 1].RenderCategory? && IsForeground(cmds[i + 1].category)
  {
    DrawSequenceInForegroundPasses(mode, pickTransparent, pickSelected);
    ForegroundPassWindows(DrawSequence(mode, pickTransparent, pickSelected));
  }

  /** The category drawn right after the depth-preparation variable is cleared is the
      one drawn right after it was set. */
  lemma DrawForegroundRepeated(mode: ViewRenderMode, pickTransparent: bool, pickSelected: bool)
    ensures var cmds := DrawSequence(mode, pickTransparent, pickSelected);
      forall i :: 0 <= i < |cmds| - 3 && cmds[i] == SetPrepareDepth(true) ==>
        cmds[i + 3] == cmds[i + 1]
  {
    DrawSequenceInForegroundPasses(mode, pickTransparent, pickSelected);
    ForegroundPassWindows(DrawSequence(mode, pickTransparent, pickSelected));
  }

  /** Foreground geometry is never drawn without the depth-preparation variable just set. */
  lemma DrawForegroundUnderPrepareDepth(mode: ViewRenderMode, pickTransparent: bool, pickSelected: bool)
    ensures var cmds := DrawSequence(mode, pickTransparent, pickSelected);
      forall i :: 0 <= i < |cmds| && cmds[i].RenderCategory? && IsForeground(cmds[i].category) ==>
        0 < i && cmds[i - 1].SetPrepareDepth?
  {
    DrawSequenceInForegroundPasses(mode, pickTransparent, pickSelected);
    ForegroundPassWindows(DrawSequence(mode, pickTransparent, pickSelected));
  }

  /** A sequence whose first part draws no simple category and whose second part draws only
      simple ones draws no lit category after a simple one. */
  lemma SimpleAfterLit(a: seq<DrawCommand>, b: seq<DrawCommand>)
    requires forall c :: c in a && c.RenderCategory? ==> !IsSimple(c.category)
    requires forall c :: c in b && c.RenderCategory? ==> IsSimple(c.category)
    ensures forall i, j :: (0 <= i < j < |a + b| && (a + b)[i].RenderCategory? && (a + b)[j].RenderCategory? &&
      IsSimple((a + b)[i].category)) ==> IsSimple((a + b)[j].category)
  {
    forall i, j | 0 <= i < j < |a + b| && (a + b)[i].RenderCategory? && (a + b)[j].RenderCategory? &&
      IsSimple((a + b)[i].category)
      ensures IsSimple((a + b)[j].category)
    {
      if |a| <= i {
        assert (a + b)[j] == b[j - |a|];
        assert (a + b)[j] in b;
      }
    }
  }

  /** The lit categories are drawn before the simple ones. */
  lemma DrawLitBeforeSimple(mode: ViewRenderMode, pickTransparent: bool, pickSelected: bool)
    ensures var cmds := DrawSequence(mode, pickTransparent, pickSelected);
      forall i, j :: (0 <= i < j < |cmds| && cmds[i].RenderCategory? && cmds[j].RenderCategory? &&
        IsSimple(cmds[i].category)) ==> IsSimple(cmds[j].category)
  {
    var lit := [SetRenderPass(PickingPermutation(mode))] + LitDraws(pickTransparent) + SelectionDraws(pickSelected);
    var simple := SimpleDraws(pickTransparent) + [SetRenderPass(RenderPassForward)];
    assert DrawSequence(mode, pickTransparent, pickSelected) == lit + simple;
    SimpleAfterLit(lit, simple);
  }

  // ----------------------------------------------------- selection filter

  /** A render data item: the object that owns it and whether it is grid render data. */
  datatype RenderData = RenderData(owner: nat, isGrid: bool)

  /** The draw filter: true means the item is skipped. */
  predicate FilterSkips(selection: set<nat>, d: RenderData) {
    d.owner in selection || d.isGrid
  }

  /** The items a filtered draw of `batch` submits, in order. */
  function FilteredItems(selection: set<nat>, batch: seq<RenderData>): (r: seq<RenderData>)
    ensures forall d :: d in r ==> d in batch && d.owner !in selection && !d.isGrid
    ensures forall d :: d in batch && d.owner !in selection && !d.isGrid ==> d in r
    ensures |r| <= |batch|
  {
    if batch == [] then []
    else if FilterSkips(selection, batch[0]) then FilteredItems(selection, batch[1..])
    else [batch[0]] + FilteredItems(selection, batch[1..])
  }

  /** Filtering a single item submits it iff the filter does not skip it. */
  lemma FilteredSingle(selection: set<nat>, d: RenderData)
    ensures FilteredItems(selection, [d]) == if FilterSkips(selection, d) then [] else [d]
  {
    assert [d][1..] == [];
  }

  /** Filtering is item by item: filtering two batches in a row submits what filtering
      each of them submits, in the same order. */
  lemma {:induction false} FilteredItemsAppend(selection: set<nat>, a: seq<RenderData>, b: seq<RenderData>)
    ensures FilteredItems(selection, a + b) == FilteredItems(selection, a) + FilteredItems(selection, b)
    decreases |a|
  {
    if a == [] {
      assert a + b == b;
    } else {
      assert (a + b)[0] == a[0];
      assert (a + b)[1..] == a[1..] + b;
      FilteredItemsAppend(selection, a[1..], b);
    }
  }

  /** Collects the owners of all render data in the selection category. */
  method CollectSelection(batches: seq<seq<RenderData>>) returns (selection: set<nat>)
    ensures forall o :: o in selection <==>
      exists i, j :: 0 <= i < |batches| && 0 <= j < |batches[i]| && batches[i][j].owner == o
  {
    selection := {};
    var i := 0;
    while i < |batches|
      invariant 0 <= i <= |batches|
      invariant forall o :: o in selection <==>
        exists i', j :: 0 <= i' < i && 0 <= j < |batches[i']| && batches[i'][j].owner == o
    {
      var j := 0;
      while j < |batches[i]|
        invariant 0 <= j <= |batches[i]|
        invariant forall o :: o in selection <==>
          (exists i', j' :: 0 <= i' < i && 0 <= j' < |batches[i']| && batches[i'][j'].owner == o) ||
          (exists j' :: 0 <= j' < j && batches[i][j'].owner == o)
      {
        selection := selection + {batches[i][j].owner};
        j := j + 1;
      }
      i := i + 1;
    }
  }

  // ------------------------------------------------------------- readback

  /** The contents of the two render targets after the draws of one frame. */
  datatype RenderedFrame = RenderedFrame(ids: seq<u32>, depths: seq<real>)

  /** The readback issued in one frame and consumed in the next. */
  datatype PendingReadback = PendingReadback(
    inProgress: bool, width: u32, height: u32, inverseViewProjection: Mat4,
    stagedIds: seq<u32>, stagedDepths: seq<real>)

  /** The CPU-side results the picks are answered from. */
  datatype PickBuffers = PickBuffers(ids: seq<u32>, depths: seq<real>, inverseViewProjection: Mat4)

  function EmptyBuffers(): PickBuffers {
    PickBuffers([], [], ZeroMatrix())
  }

  /** An issued readback holds exactly one frame of the size it was issued for. */
  predicate PendingWellFormed(p: PendingReadback) {
    p.inProgress ==> |p.stagedIds| == |p.stagedDepths| == p.width * p.height
  }

  /** The buffers are empty or hold exactly one w*h frame. */
  predicate BuffersMatch(b: PickBuffers, w: int, h: int) {
    |b.ids| == |b.depths| && (|b.ids| == 0 || |b.ids| == w * h)
  }

  /** Consumption of the previous frame's readback, as written: a readback in flight
      is taken when the window size is unchanged and discarded otherwise; when
      nothing is in flight the buffers are kept whatever the window size now is. */
  function ConsumeReadbackAsWritten(p: PendingReadback, w: u32, h: u32, b: PickBuffers): (r: (PendingReadback, PickBuffers))
    requires PendingWellFormed(p)
    ensures r.0 == p.(inProgress := false)
    ensures !p.inProgress ==> r.1 == b
    ensures p.inProgress && p.width == w && p.height == h ==>
      r.1 == PickBuffers(p.stagedIds, p.stagedDepths, p.inverseViewProjection) && BuffersMatch(r.1, w, h)
    ensures p.inProgress && (p.width != w || p.height != h) ==> r.1 == EmptyBuffers()
  {
    if !p.inProgress then (p, b)
    else if h == p.height && w == p.width then
      (p.(inProgress := false), PickBuffers(p.stagedIds, p.stagedDepths, p.inverseViewProjection))
    else
      (p.(inProgress := false), EmptyBuffers())
  }

  /** Consumption of the previous frame's readback, with results of another resolution
      discarded also when nothing is in flight (the pending record then still holds
      the size of the buffers). */
  function ConsumeReadback(p: PendingReadback, w: u32, h: u32, b: PickBuffers): (r: (PendingReadback, PickBuffers))
    requires PendingWellFormed(p)
    requires BuffersMatch(b, p.width, p.height)
    ensures r.0 == p.(inProgress := false)
    ensures BuffersMatch(r.1, w, h) && BuffersMatch(r.1, r.0.width, r.0.height)
    ensures p.inProgress && p.width == w && p.height == h ==>
      r.1 == PickBuffers(p.stagedIds, p.stagedDepths, p.inverseViewProjection)
    ensures p.width != w || p.height != h ==> r.1 == EmptyBuffers()
    ensures !p.inProgress && p.width == w && p.height == h ==> r.1 == b
  {
    if h == p.height && w == p.width then
      if p.inProgress then
        (p.(inProgress := false), PickBuffers(p.stagedIds, p.stagedDepths, p.inverseViewProjection))
      else (p, b)
    else
      (p.(inProgress := false), EmptyBuffers())
  }

  /** Submission of this frame's readback. `inverse` is the inverted view-projection
      matrix, None when the inversion fails. */
  function SubmitReadback(p: PendingReadback, w: u32, h: u32, frame: RenderedFrame,
                          projectionIsNaN: bool, inverse: Option<Mat4>): (r: PendingReadback)
    requires !p.inProgress
    requires |frame.ids| == |frame.depths| == w * h
    ensures PendingWellFormed(r)
    ensures r.inProgress <==> w != 0 && h != 0 && !projectionIsNaN && inverse.Some?
    ensures r.inProgress ==> r == PendingReadback(true, w, h, inverse.value, frame.ids, frame.depths)
    ensures !r.inProgress ==> r.width == p.width && r.height == p.height && r.inverseViewProjection == p.inverseViewProjection
  {
    if w == 0 || h == 0 then p
    else
      var staged := p.(stagedIds := frame.ids, stagedDepths := frame.depths);
      if projectionIsNaN || inverse.None? then staged
      else staged.(inverseViewProjection := inverse.value, width := w, height := h, inProgress := true)
  }

  /** Consuming the previous readback and submitting the next keeps both sizes in step
      with the buffers. */
  lemma ReadbackStepMatches(p: PendingReadback, b: PickBuffers, w: u32, h: u32, frame: RenderedFrame,
                            projectionIsNaN: bool, inverse: Option<Mat4>)
    requires PendingWellFormed(p) && BuffersMatch(b, p.width, p.height)
    requires |frame.ids| == |frame.depths| == w * h
    ensures var (p1, b1) := ConsumeReadback(p, w, h, b);
      var p2 := SubmitReadback(p1, w, h, frame, projectionIsNaN, inverse);
      PendingWellFormed(p2) && BuffersMatch(b1, w, h) && BuffersMatch(b1, p2.width, p2.height)
  {
  }

  /** With the consumption as written, the buffers match the new window size exactly
      when a readback was in flight, the buffers were empty, or the window kept the
      number of pixels of the buffers. */
  lemma ReadbackStepAsWritten(p: PendingReadback, b: PickBuffers, w: u32, h: u32)
    requires PendingWellFormed(p) && BuffersMatch(b, p.width, p.height)
    ensures var (_, b1) := ConsumeReadbackAsWritten(p, w, h, b);
      BuffersMatch(b1, w, h) <==> p.inProgress || |b.ids| == 0 || |b.ids| == w * h
  {
  }

  /** A readback issued at one size is delivered in the next frame exactly when the
      window keeps its size; otherwise the pick buffers come back empty. */
  lemma ReadbackDeliveredNextFrame(p: PendingReadback, b: PickBuffers, w: u32, h: u32, frame: RenderedFrame,
                                   inverse: Mat4, w2: u32, h2: u32)
    requires !p.inProgress && w != 0 && h != 0
    requires |frame.ids| == |frame.depths| == w * h && BuffersMatch(b, w, h)
    ensures var p1 := SubmitReadback(p, w, h, frame, false, Some(inverse));
      ConsumeReadback(p1, w2, h2, b).1 ==
        if w2 == w && h2 == h then PickBuffers(frame.ids, frame.depths, inverse) else EmptyBuffers()
  {
  }

  // ------------------------------------------------------------ single pick

  /** A pixel position. */
  datatype Pixel = Pixel(px: nat, py: nat)

  function Dist(a: nat, b: nat): nat {
    if a >= b then a - b else b - a
  }

  /** The pixels of row `row` from `left` to `right`, inclusive, left to right. */
  function RowPixels(row: nat, left: nat, right: nat): (r: seq<Pixel>)
    requires left <= right
    ensures |r| == right - left + 1
    ensures forall k :: 0 <= k < |r| ==> r[k] == Pixel(left + k, row)
  {
    seq(right - left + 1, k requires 0 <= k < right - left + 1 => Pixel(left + k, row))
  }

  /** The clipped low and high ends of a search ring of radius `r` around `c`. */
  function RingLow(c: nat, r: nat): nat { if c >= r then c - r else 0 }
  function RingHigh(c: nat, r: nat, size: nat): nat requires c < size { if c + r <= size - 1 then c + r else size - 1 }

  /** One ring of radius `r`: the top row of the clipped square around (x, y), then its
      bottom row. */
  function RingRows(w: nat, h: nat, x: nat, y: nat, r: nat): seq<Pixel>
    requires x < w && y < h
  {
    var left, right := RingLow(x, r), RingHigh(x, r, w);
    RowPixels(RingLow(y, r), left, right) + RowPixels(RingHigh(y, r, h), left, right)
  }

  /** The pixels the ring search visits for radii r..9: per radius, the top row of the
      clipped square around (x, y), then its bottom row. */
  function RingOrder(w: nat, h: nat, x: nat, y: nat, r: nat): seq<Pixel>
    requires x < w && y < h
    decreases 10 - r
  {
    if r >= 10 then [] else RingRows(w, h, x, y, r) + RingOrder(w, h, x, y, r + 1)
  }

  /** The full visiting order of a single pick: the pixel itself, then the rings. */
  function PickOrder(w: nat, h: nat, x: nat, y: nat): seq<Pixel>
    requires x < w && y < h
  {
    [Pixel(x, y)] + RingOrder(w, h, x, y, 1)
  }

  /** Every pixel the search visits lies in the image, at most nine pixels away from
      (x, y) in each direction. */
  lemma RingRowsNearby(w: nat, h: nat, x: nat, y: nat, r: nat)
    requires x < w && y < h && r < 10
    ensures forall p :: p in RingRows(w, h, x, y, r) ==>
      p.px < w && p.py < h && Dist(p.px, x) <= 9 && Dist(p.py, y) <= 9
  {
  }

  lemma {:induction false} RingOrderNearby(w: nat, h: nat, x: nat, y: nat, r: nat)
    requires x < w && y < h
    ensures forall p :: p in RingOrder(w, h, x, y, r) ==>
      p.px < w && p.py < h && Dist(p.px, x) <= 9 && Dist(p.py, y) <= 9
    decreases 10 - r
  {
    if r < 10 {
      RingOrderNearby(w, h, x, y, r + 1);
      RingRowsNearby(w, h, x, y, r);
    }
  }

  /** The id stored for pixel p in a buffer of width w (zero past the end of the buffer). */
  function IdAt(ids: seq<u32>, w: nat, p: Pixel): u32 {
    if p.py * w + p.px < |ids| then ids[p.py * w + p.px] else 0
  }

  /** The id of the first pixel along `order` whose id is not zero; zero if none. */
  function FirstNonZero(ids: seq<u32>, w: nat, order: seq<Pixel>): u32 {
    if order == [] then 0
    else if IdAt(ids, w, order[0]) != 0 then IdAt(ids, w, order[0])
    else FirstNonZero(ids, w, order[1..])
  }

  /** FirstNonZero is zero exactly when every visited pixel holds id zero, and otherwise
      is the id of a visited pixel all of whose predecessors hold zero. */
  lemma {:induction false} FirstNonZeroSpec(ids: seq<u32>, w: nat, order: seq<Pixel>)
    ensures FirstNonZero(ids, w, order) == 0 <==> forall k :: 0 <= k < |order| ==> IdAt(ids, w, order[k]) == 0
    ensures FirstNonZero(ids, w, order) != 0 ==>
      exists k :: 0 <= k < |order| && IdAt(ids, w, order[k]) == FirstNonZero(ids, w, order) &&
        forall j :: 0 <= j < k ==> IdAt(ids, w, order[j]) == 0
  {
    if order != [] {
      FirstNonZeroSpec(ids, w, order[1..]);
      if IdAt(ids, w, order[0]) == 0 {
        if FirstNonZero(ids, w, order[1..]) != 0 {
          var k :| 0 <= k < |order[1..]| && IdAt(ids, w, order[1..][k]) == FirstNonZero(ids, w, order[1..]) &&
            forall j :: 0 <= j < k ==> IdAt(ids, w, order[1..][j]) == 0;
          assert IdAt(ids, w, order[k + 1]) == FirstNonZero(ids, w, order);
          forall j | 0 <= j < k + 1 ensures IdAt(ids, w, order[j]) == 0 {
            if j > 0 { assert order[j] == order[1..][j - 1]; }
          }
        } else {
          forall k | 0 <= k < |order| ensures IdAt(ids, w, order[k]) == 0 {
            if k > 0 { assert order[k] == order[1..][k - 1]; }
          }
        }
      }
    }
  }

  /** Searching a concatenation searches the first part, then the second. */
  lemma {:induction false} FirstNonZeroAppend(ids: seq<u32>, w: nat, a: seq<Pixel>, b: seq<Pixel>)
    ensures FirstNonZero(ids, w, a + b) ==
      if FirstNonZero(ids, w, a) != 0 then FirstNonZero(ids, w, a) else FirstNonZero(ids, w, b)
  {
    if a != [] {
      assert (a + b)[0] == a[0];
      assert (a + b)[1..] == a[1..] + b;
      FirstNonZeroAppend(ids, w, a[1..], b);
    } else {
      assert a + b == b;
    }
  }

  /** FirstNonZero, stated by membership: zero exactly when every visited pixel holds
      zero, and otherwise the id of some visited pixel. */
  lemma {:induction false} FirstNonZeroFound(ids: seq<u32>, w: nat, order: seq<Pixel>)
    ensures FirstNonZero(ids, w, order) == 0 <==> forall p :: p in order ==> IdAt(ids, w, p) == 0
    ensures FirstNonZero(ids, w, order) != 0 ==> exists p :: p in order && IdAt(ids, w, p) == FirstNonZero(ids, w, order)
  {
    if order != [] {
      FirstNonZeroFound(ids, w, order[1..]);
      assert order == [order[0]] + order[1..];
    }
  }

  lemma PickOrderNearby(w: nat, h: nat, x: nat, y: nat)
    requires x < w && y < h
    ensures forall p :: p in PickOrder(w, h, x, y) ==>
      p.px < w && p.py < h && Dist(p.px, x) <= 9 && Dist(p.py, y) <= 9
  {
    RingOrderNearby(w, h, x, y, 1);
  }

  /** A picked id comes from a pixel at most nine pixels away in each direction; the
      id under the cursor wins when it is not zero; and the pick yields zero exactly
      when every pixel of the search holds zero. */
  lemma PickedIdNearby(ids: seq<u32>, w: nat, h: nat, x: nat, y: nat)
    requires |ids| == w * h && x < w && y < h
    ensures var id := FirstNonZero(ids, w, PickOrder(w, h, x, y));
      (id != 0 ==> exists p: Pixel :: p.px < w && p.py < h && Dist(p.px, x) <= 9 && Dist(p.py, y) <= 9 && IdAt(ids, w, p) == id) &&
      (IdAt(ids, w, Pixel(x, y)) != 0 ==> id == IdAt(ids, w, Pixel(x, y))) &&
      (id == 0 <==> forall p :: p in PickOrder(w, h, x, y) ==> IdAt(ids, w, p) == 0)
  {
    var order := PickOrder(w, h, x, y);
    PickOrderNearby(w, h, x, y);
    FirstNonZeroFound(ids, w, order);
    PickOrderStart(ids, w, h, x, y);
    var id := FirstNonZero(ids, w, order);
    if id != 0 {
      var p :| p in order && IdAt(ids, w, p) == id;
      assert p.px < w && p.py < h && Dist(p.px, x) <= 9 && Dist(p.py, y) <= 9;
    }
  }

  /** One row of the ring search: left to right, stopping at the first non-zero id. */
  method ScanRowForId(ids: seq<u32>, w: nat, h: nat, row: nat, left: nat, right: nat) returns (id: u32)
    requires |ids| == w * h && left <= right < w && row < h
    ensures id == FirstNonZero(ids, w, RowPixels(row, left, right))
  {
    ghost var pixels := RowPixels(row, left, right);
    id := 0;
    var xt := left;
    while xt <= right
      invariant left <= xt <= right + 1
      invariant FirstNonZero(ids, w, pixels) == FirstNonZero(ids, w, pixels[xt - left..])
      decreases right + 1 - xt
    {
      assert pixels[xt - left..][0] == Pixel(xt, row);
      assert pixels[xt - left..][1..] == pixels[xt + 1 - left..];
      id := ReadId(ids, w, h, xt, row);
      if id != 0 {
        return;
      }
      xt := xt + 1;
    }
    id := 0;
  }

  /** One ring of the search: the top row, then the bottom row, stopping at the first
      non-zero id. */
  method ScanRing(ids: seq<u32>, w: nat, h: nat, x: nat, y: nat, r: nat) returns (id: u32)
    requires |ids| == w * h && x < w && y < h
    ensures id == FirstNonZero(ids, w, RingRows(w, h, x, y, r))
  {
    var left, right := RingLow(x, r), RingHigh(x, r, w);
    FirstNonZeroAppend(ids, w, RowPixels(RingLow(y, r), left, right), RowPixels(RingHigh(y, r, h), left, right));
    id := ScanRowForId(ids, w, h, RingLow(y, r), left, right);
    if id != 0 {
      return;
    }
    id := ScanRowForId(ids, w, h, RingHigh(y, r, h), left, right);
  }

  /** Reads the id of a pixel inside the image. */
  method ReadId(ids: seq<u32>, w: nat, h: nat, px: nat, py: nat) returns (id: u32)
    requires |ids| == w * h && px < w && py < h
    ensures id == IdAt(ids, w, Pixel(px, py))
  {
    IndexInBounds(w, h, px, py);
    id := ids[py * w + px];
  }

  /** The search starts at the pixel itself and continues with the rings. */
  lemma PickOrderStart(ids: seq<u32>, w: nat, h: nat, x: nat, y: nat)
    requires x < w && y < h
    ensures FirstNonZero(ids, w, PickOrder(w, h, x, y)) ==
      if IdAt(ids, w, Pixel(x, y)) != 0 then IdAt(ids, w, Pixel(x, y)) else FirstNonZero(ids, w, RingOrder(w, h, x, y, 1))
  {
    assert PickOrder(w, h, x, y)[1..] == RingOrder(w, h, x, y, 1);
  }

  /** The id read of the single pick (lines 313-345): the pixel under the cursor, then the
      rings of radius 1 to 9 until a non-zero id turns up. */
  method FindPickId(ids: seq<u32>, w: nat, h: nat, x: nat, y: nat) returns (id: u32)
    requires |ids| == w * h && x < w && y < h
    ensures id == FirstNonZero(ids, w, PickOrder(w, h, x, y))
  {
    ghost var target := FirstNonZero(ids, w, PickOrder(w, h, x, y));
    PickOrderStart(ids, w, h, x, y);
    id := ReadId(ids, w, h, x, y);
    if id != 0 {
      return;
    }
    var radius := 1;
    while radius < 10
      invariant 1 <= radius <= 10
      invariant target == FirstNonZero(ids, w, RingOrder(w, h, x, y, radius))
      decreases 10 - radius
    {
      FirstNonZeroAppend(ids, w, RingRows(w, h, x, y, radius), RingOrder(w, h, x, y, radius + 1));
      id := ScanRing(ids, w, h, x, y, radius);
      if id != 0 {
        return;
      }
      radius := radius + 1;
    }
  }

  /** The pick guard (line 270), with the ezUInt32 index arithmetic. True when the pick proceeds. */
  predicate SinglePickAccepted(count: nat, w: u32, h: u32, x: u32, y: u32) {
    !(ToU32(y * w + x) >= count || x >= w || y >= h)
  }

  /** With buffers holding 0 or w*h entries the guard accepts exactly the pixels inside
      a non-empty image. */
  lemma SinglePickAcceptedIff(count: nat, w: u32, h: u32, x: u32, y: u32)
    requires DimsFit(w, h) && (count == 0 || count == w * h)
    ensures SinglePickAccepted(count, w, h, x, y) <==> count != 0 && x < w && y < h
  {
    if x < w && y < h {
      IndexInBounds(w, h, x, y);
    }
  }

  /** The four neighbour directions of the normal estimate: right, left, down, up. */
  const NeighbourOffsets: seq<(int, int)> := [(1, 0), (-1, 0), (0, 1), (0, -1)]

  /** The depth stored for pixel p in a buffer of width w (zero past the end of the buffer). */
  function DepthAt(depths: seq<real>, w: nat, p: Pixel): real {
    if p.py * w + p.px < |depths| then depths[p.py * w + p.px] else 0.0
  }

  /** Reads the depth of a pixel inside the image. */
  method ReadDepth(depths: seq<real>, w: nat, h: nat, px: nat, py: nat) returns (depth: real)
    requires |depths| == w * h && px < w && py < h
    ensures depth == DepthAt(depths, w, Pixel(px, py))
  {
    IndexInBounds(w, h, px, py);
    depth := depths[py * w + px];
  }

  /** The depth at pixel (nx, ny), or `centre` when that pixel is outside the w x h image. */
  function DepthOrCentre(depths: seq<real>, w: nat, h: nat, nx: int, ny: int, centre: real): real {
    if 0 <= nx < w && 0 <= ny < h then DepthAt(depths, w, Pixel(nx, ny)) else centre
  }

  /** The depths at the four neighbours (lines 287-298); a neighbour outside the image
      takes the centre depth. */
  function NeighbourDepths(depths: seq<real>, w: nat, h: nat, x: nat, y: nat): (r: seq<real>)
    requires x < w && y < h
    ensures |r| == 4
    ensures r[0] == if x + 1 < w then DepthAt(depths, w, Pixel(x + 1, y)) else DepthAt(depths, w, Pixel(x, y))
    ensures r[1] == if x > 0 then DepthAt(depths, w, Pixel(x - 1, y)) else DepthAt(depths, w, Pixel(x, y))
    ensures r[2] == if y + 1 < h then DepthAt(depths, w, Pixel(x, y + 1)) else DepthAt(depths, w, Pixel(x, y))
    ensures r[3] == if y > 0 then DepthAt(depths, w, Pixel(x, y - 1)) else DepthAt(depths, w, Pixel(x, y))
  {
    seq(4, k requires 0 <= k < 4 =>
      DepthOrCentre(depths, w, h, x + NeighbourOffsets[k].0, y + NeighbourOffsets[k].1, DepthAt(depths, w, Pixel(x, y))))
  }

  /** The screen positions at which the neighbours are unprojected (lines 300-303), as
      written: `x - 1` and `y - 1` are computed in ezUInt32 before the float conversion. */
  function NeighbourScreenPositionsAsWritten(x: u32, y: u32): (r: seq<(real, real)>)
    ensures |r| == 4
  {
    [((x + 1) as real, y as real), (ToU32(x - 1) as real, y as real),
     (x as real, (y + 1) as real), (x as real, ToU32(y - 1) as real)]
  }

  /** The neighbour screen positions one pixel away in each direction, in signed arithmetic. */
  function NeighbourScreenPositions(x: u32, y: u32): (r: seq<(real, real)>)
    ensures |r| == 4
    ensures forall k :: 0 <= k < 4 ==> r[k] == ((x + NeighbourOffsets[k].0) as real, (y + NeighbourOffsets[k].1) as real)
    ensures x > 0 && y > 0 ==> r == NeighbourScreenPositionsAsWritten(x, y)
  {
    [((x + 1) as real, y as real), ((x - 1) as real, y as real),
     (x as real, (y + 1) as real), (x as real, (y - 1) as real)]
  }

  /** At the left edge the as-written left neighbour lands at screen x = 2^32 - 1
      instead of one pixel to the left; likewise at the top edge. */
  lemma NeighbourWrapsAtEdge()
    ensures NeighbourScreenPositionsAsWritten(0, 5)[1] == (4294967295.0, 5.0)
    ensures NeighbourScreenPositions(0, 5)[1] == (-1.0, 5.0)
    ensures NeighbourScreenPositionsAsWritten(5, 0)[3] == (5.0, 4294967295.0)
    ensures NeighbourScreenPositions(5, 0)[3] == (5.0, -1.0)
  {
  }

  /** The surface normal at the picked pixel (lines 300-310): the four neighbours are
      unprojected, the normals of the four triangles they span with the picked position
      are summed and normalised. `unproject`, `triangleNormal` and `normalize` stand for
      the engine's unprojection, triangle-normal and normalisation routines. */
  function PickNormal(unproject: (Mat4, u32, u32, real, real, real) -> Vec3,
                      triangleNormal: (Vec3, Vec3, Vec3) -> Vec3, normalize: Vec3 -> Vec3,
                      m: Mat4, w: u32, h: u32, depths: seq<real>, x: u32, y: u32): Vec3
    requires x < w && y < h
  {
    var position := unproject(m, w, h, x as real, y as real, DepthAt(depths, w, Pixel(x, y)));
    var others := NeighbourDepths(depths, w, h, x, y);
    var screen := NeighbourScreenPositions(x, y);
    var p0 := unproject(m, w, h, screen[0].0, screen[0].1, others[0]);
    var p1 := unproject(m, w, h, screen[1].0, screen[1].1, others[1]);
    var p2 := unproject(m, w, h, screen[2].0, screen[2].1, others[2]);
    var p3 := unproject(m, w, h, screen[3].0, screen[3].1, others[3]);
    normalize(AddVec(AddVec(AddVec(triangleNormal(position, p0, p2), triangleNormal(position, p2, p1)),
                            triangleNormal(position, p1, p3)), triangleNormal(position, p3, p0)))
  }

  /** What a single pick publishes for the editor. */
  datatype SinglePickResult = SinglePickResult(
    matrix: Mat4, id: u32, depth: real, normal: Vec3, rayStart: Vec3, position: Vec3)

  // ----------------------------------------------------------- marquee pick

  /** What a marquee pick publishes for the editor. */
  datatype MarqueePickResult = MarqueePickResult(actionId: u32, ids: seq<u32>)

  /** The pixels of row `row` sampled by the marquee scan: every second one from `from`. */
  function RowSamples(row: nat, from: nat, high: nat): seq<Pixel>
    decreases high - from
  {
    if from >= high then [] else [Pixel(from, row)] + RowSamples(row, from + 2, high)
  }

  /** The pixels the marquee scan samples for rows y..highY-1, starting at `offset`. */
  function Checkerboard(lowX: nat, highX: nat, y: nat, highY: nat, offset: nat): seq<Pixel>
    decreases highY - y
  {
    if y >= highY then []
    else RowSamples(y, lowX + offset, highX) + Checkerboard(lowX, highX, y + 1, highY, (offset + 1) % 2)
  }

  lemma {:induction false} RowSamplesContain(row: nat, from: nat, high: nat, p: Pixel)
    ensures p in RowSamples(row, from, high) <==> p.py == row && from <= p.px < high && (p.px - from) % 2 == 0
    decreases high - from
  {
    if from < high {
      RowSamplesContain(row, from + 2, high, p);
    }
  }

  /** Moving one row down flips the offset; the offset may be added or subtracted. */
  lemma ParitySteps(d: int, offset: nat)
    requires offset < 2
    ensures (d - 1 + (offset + 1) % 2) % 2 == (d + offset) % 2
    ensures (d - offset) % 2 == (d + offset) % 2
  {
  }

  /** Exactly the pixels of [lowX, highX) x [y, highY) whose distance from the start corner
      is even (after `offset`) are sampled: a checkerboard over the half-open rectangle. */
  lemma {:induction false} CheckerboardSamples(lowX: nat, highX: nat, y: nat, highY: nat, offset: nat, p: Pixel)
    requires offset < 2
    ensures p in Checkerboard(lowX, highX, y, highY, offset) <==>
      lowX <= p.px < highX && y <= p.py < highY && (p.px - lowX + p.py - y + offset) % 2 == 0
    decreases highY - y
  {
    if y < highY {
      CheckerboardSamples(lowX, highX, y + 1, highY, (offset + 1) % 2, p);
      RowSamplesContain(y, lowX + offset, highX, p);
      ParitySteps(p.px - lowX + p.py - y, offset);
    }
  }

  /** `vals` appended to `acc`, skipping values already present (line 392). */
  function AppendNew(acc: seq<u32>, vals: seq<u32>): seq<u32>
    decreases |vals|
  {
    if vals == [] then acc
    else AppendNew(if vals[0] in acc then acc else acc + [vals[0]], vals[1..])
  }

  lemma {:induction false} AppendNewPrefix(acc: seq<u32>, vals: seq<u32>)
    ensures |acc| <= |AppendNew(acc, vals)| && AppendNew(acc, vals)[..|acc|] == acc
    decreases |vals|
  {
    if vals != [] {
      var acc' := if vals[0] in acc then acc else acc + [vals[0]];
      AppendNewPrefix(acc', vals[1..]);
      var r := AppendNew(acc', vals[1..]);
      assert r[..|acc|] == r[..|acc'|][..|acc|];
    }
  }

  lemma {:induction false} AppendNewMembers(acc: seq<u32>, vals: seq<u32>)
    ensures forall v :: v in AppendNew(acc, vals) <==> v in acc || v in vals
    decreases |vals|
  {
    if vals != [] {
      var acc' := if vals[0] in acc then acc else acc + [vals[0]];
      AppendNewMembers(acc', vals[1..]);
      assert vals == [vals[0]] + vals[1..];
    }
  }

  lemma {:induction false} AppendNewDistinct(acc: seq<u32>, vals: seq<u32>)
    requires NoDuplicates(acc)
    ensures NoDuplicates(AppendNew(acc, vals))
    decreases |vals|
  {
    if vals != [] {
      var acc' := if vals[0] in acc then acc else acc + [vals[0]];
      AppendNewDistinct(acc', vals[1..]);
    }
  }

  /** AppendNew keeps `acc` in front, adds every value of `vals`, adds nothing else,
      and never adds a duplicate. */
  lemma AppendNewSpec(acc: seq<u32>, vals: seq<u32>)
    requires NoDuplicates(acc)
    ensures var r := AppendNew(acc, vals);
      NoDuplicates(r) && |acc| <= |r| && r[..|acc|] == acc &&
      forall v :: v in r <==> v in acc || v in vals
  {
    AppendNewPrefix(acc, vals);
    AppendNewMembers(acc, vals);
    AppendNewDistinct(acc, vals);
  }

  lemma {:induction false} AppendNewConcat(acc: seq<u32>, a: seq<u32>, b: seq<u32>)
    ensures AppendNew(acc, a + b) == AppendNew(AppendNew(acc, a), b)
    decreases |a|
  {
    if a != [] {
      assert (a + b)[0] == a[0];
      assert (a + b)[1..] == a[1..] + b;
      AppendNewConcat(if a[0] in acc then acc else acc + [a[0]], a[1..], b);
    } else {
      assert a + b == b;
    }
  }

  /** The ids of a sequence of pixels. */
  function PixelIds(ids: seq<u32>, w: nat, ps: seq<Pixel>): (r: seq<u32>)
    ensures |r| == |ps|
    ensures forall k :: 0 <= k < |ps| ==> r[k] == IdAt(ids, w, ps[k])
  {
    seq(|ps|, k requires 0 <= k < |ps| => IdAt(ids, w, ps[k]))
  }

  /** The marquee result: the distinct ids of the sampled pixels in first-seen order. */
  function MarqueeIds(ids: seq<u32>, w: nat, samples: seq<Pixel>): seq<u32> {
    AppendNew([], PixelIds(ids, w, samples))
  }

  /** The ids of some pixels are exactly the ids found at those pixels. */
  lemma PixelIdsMembers(ids: seq<u32>, w: nat, ps: seq<Pixel>)
    ensures forall v :: v in PixelIds(ids, w, ps) <==> exists p :: p in ps && IdAt(ids, w, p) == v
  {
    var vals := PixelIds(ids, w, ps);
    forall v ensures v in vals <==> exists p :: p in ps && IdAt(ids, w, p) == v {
      if v in vals {
        var k :| 0 <= k < |vals| && vals[k] == v;
        assert ps[k] in ps;
      }
      if exists p :: p in ps && IdAt(ids, w, p) == v {
        var p :| p in ps && IdAt(ids, w, p) == v;
        var k :| 0 <= k < |ps| && ps[k] == p;
        assert vals[k] == v;
      }
    }
  }

  /** An empty rectangle samples no pixel. */
  lemma CheckerboardEmpty(lowX: nat, highX: nat, lowY: nat, highY: nat)
    requires lowX >= highX || lowY >= highY
    ensures Checkerboard(lowX, highX, lowY, highY, 0) == []
  {
    var samples := Checkerboard(lowX, highX, lowY, highY, 0);
    if samples != [] {
      CheckerboardSamples(lowX, highX, lowY, highY, 0, samples[0]);
      assert false;
    }
  }

  /** The marquee result holds the id of every sampled pixel exactly once and nothing
      else; an empty rectangle (corners in one row or one column) yields no ids. */
  lemma MarqueeIdsSpec(ids: seq<u32>, w: nat, lowX: nat, highX: nat, lowY: nat, highY: nat)
    ensures var r := MarqueeIds(ids, w, Checkerboard(lowX, highX, lowY, highY, 0));
      NoDuplicates(r) &&
      (forall v :: v in r <==> exists p :: p in Checkerboard(lowX, highX, lowY, highY, 0) && IdAt(ids, w, p) == v) &&
      (lowX >= highX || lowY >= highY ==> r == [])
  {
    var samples := Checkerboard(lowX, highX, lowY, highY, 0);
    AppendNewSpec([], PixelIds(ids, w, samples));
    PixelIdsMembers(ids, w, samples);
    if lowX >= highX || lowY >= highY {
      CheckerboardEmpty(lowX, highX, lowY, highY);
    }
  }

  /** One row of the marquee scan (line 385): every second pixel, skipping known ids. */
  method ScanMarqueeRow(ids: seq<u32>, w: nat, h: nat, y: nat, from: nat, highX: nat, found: seq<u32>)
    returns (result: seq<u32>)
    requires |ids| == w * h && highX < w && y < h
    ensures result == AppendNew(found, PixelIds(ids, w, RowSamples(y, from, highX)))
  {
    ghost var target := AppendNew(found, PixelIds(ids, w, RowSamples(y, from, highX)));
    result := found;
    var x := from;
    while x < highX
      invariant from <= x
      invariant target == AppendNew(result, PixelIds(ids, w, RowSamples(y, x, highX)))
      decreases highX - x
    {
      ghost var vals := PixelIds(ids, w, RowSamples(y, x, highX));
      assert RowSamples(y, x, highX) == [Pixel(x, y)] + RowSamples(y, x + 2, highX);
      assert vals == [IdAt(ids, w, Pixel(x, y))] + PixelIds(ids, w, RowSamples(y, x + 2, highX));
      assert vals[1..] == PixelIds(ids, w, RowSamples(y, x + 2, highX));
      var id := ReadId(ids, w, h, x, y);
      x := x + 2;
      if id in result {
        continue;
      }
      result := result + [id];
    }
  }

  /** The marquee scan (lines 376-401): rows lowY..highY-1, alternating the start column. */
  method ScanMarquee(ids: seq<u32>, w: nat, h: nat, lowX: nat, highX: nat, lowY: nat, highY: nat)
    returns (result: seq<u32>)
    requires |ids| == w * h && highX < w && highY < h
    ensures result == MarqueeIds(ids, w, Checkerboard(lowX, highX, lowY, highY, 0))
  {
    ghost var target := MarqueeIds(ids, w, Checkerboard(lowX, highX, lowY, highY, 0));
    result := [];
    var offset: nat := 0;
    var y := lowY;
    while y < highY
      invariant lowY <= y && offset < 2
      invariant target == AppendNew(result, PixelIds(ids, w, Checkerboard(lowX, highX, y, highY, offset)))
      decreases highY - y
    {
      ghost var row := RowSamples(y, lowX + offset, highX);
      ghost var rest := Checkerboard(lowX, highX, y + 1, highY, (offset + 1) % 2);
      assert PixelIds(ids, w, row + rest) == PixelIds(ids, w, row) + PixelIds(ids, w, rest);
      AppendNewConcat(result, PixelIds(ids, w, row), PixelIds(ids, w, rest));
      result := ScanMarqueeRow(ids, w, h, y, lowX + offset, highX, result);
      offset := (offset + 1) % 2;
      y := y + 1;
    }
  }

  /** The marquee guard (line 364) as written: the second index is computed from the first
      corner again (line 362). True when the pick proceeds. */
  predicate MarqueeAccepted(count: nat, w: u32, h: u32, x0: u32, y0: u32, x1: u32, y1: u32) {
    var index1 := ToU32(y0 * w + x0);
    var index2 := ToU32(y0 * w + x0);
    !((index1 >= count || x0 >= w || y0 >= h) || (index2 >= count || x1 >= w || y1 >= h))
  }

  /** With buffers holding 0 or w*h entries, the repeated first-corner index is harmless:
      the guard accepts exactly when both corners lie in a non-empty image. */
  lemma MarqueeAcceptedIff(count: nat, w: u32, h: u32, x0: u32, y0: u32, x1: u32, y1: u32)
    requires DimsFit(w, h) && (count == 0 || count == w * h)
    ensures MarqueeAccepted(count, w, h, x0, y0, x1, y1) <==> count != 0 && x0 < w && y0 < h && x1 < w && y1 < h
  {
    if x0 < w && y0 < h {
      IndexInBounds(w, h, x0, y0);
    }
  }

  /** With the buffers of a smaller frame kept, both guards let reads past the end of the
      buffers through: a 2x2 readback kept while the window grows to 3x3. */
  lemma StaleBuffersAsWritten()
    ensures var staged := PendingReadback(true, 2, 2, ZeroMatrix(), [1, 2, 3, 4], [0.5, 0.5, 0.5, 0.5]);
      // a frame at 2x2 takes the readback, then its projection is NaN: nothing new in flight
      var (p1, b1) := ConsumeReadbackAsWritten(staged, 2, 2, EmptyBuffers());
      var p2 := SubmitReadback(p1, 2, 2, RenderedFrame([1, 2, 3, 4], [0.5, 0.5, 0.5, 0.5]), true, None);
      // the next frame, at 3x3, keeps the 2x2 buffers
      var (p3, b3) := ConsumeReadbackAsWritten(p2, 3, 3, b1);
      |b3.ids| == 4 && |b3.depths| == 4 && !BuffersMatch(b3, 3, 3) &&
      // a pick at (2, 0) passes the guard, but the depth of its lower neighbour is read at index 5
      SinglePickAccepted(|b3.depths|, 3, 3, 2, 0) && (0 + 1) * 3 + 2 >= |b3.depths| &&
      // a marquee from (0, 0) to (2, 2) passes the guard and samples pixel (1, 1) at index 4
      MarqueeAccepted(|b3.depths|, 3, 3, 0, 0, 2, 2) && Pixel(1, 1) in Checkerboard(0, 2, 0, 2, 0) &&
      1 * 3 + 1 >= |b3.ids|
  {
    CheckerboardSamples(0, 2, 0, 2, 0, Pixel(1, 1));
  }

  /** The corrected consumption never leaves buffers of another size: in the same
      scenario the 3x3 frame finds empty buffers, which both guards reject. */
  lemma StaleBuffersCorrected()
    ensures var staged := PendingReadback(true, 2, 2, ZeroMatrix(), [1, 2, 3, 4], [0.5, 0.5, 0.5, 0.5]);
      var (p1, b1) := ConsumeReadback(staged, 2, 2, EmptyBuffers());
      var p2 := SubmitReadback(p1, 2, 2, RenderedFrame([1, 2, 3, 4], [0.5, 0.5, 0.5, 0.5]), true, None);
      var (p3, b3) := ConsumeReadback(p2, 3, 3, b1);
      b3 == EmptyBuffers() && !SinglePickAccepted(0, 3, 3, 2, 0) && !MarqueeAccepted(0, 3, 3, 0, 0, 2, 2)
  {
  }

  // ------------------------------------------------------------------ GPU

  datatype TextureFormat = RGBAUByteNormalized | DFloat

  datatype TextureDesc = TextureDesc(width: u32, height: u32, format: TextureFormat, renderTargetView: bool, shaderResourceView: bool)

  /** The textures alive on the graphics device, by handle. */
  class Device {
    var textures: map<nat, TextureDesc>
    var nextHandle: nat

    predicate Valid()
      reads this
    {
      forall t :: t in textures ==> t < nextHandle
    }

    constructor ()
      ensures Valid() && textures == map[]
    {
      textures := map[];
      nextHandle := 1;
    }

    method CreateTexture(desc: TextureDesc) returns (t: nat)
      requires Valid()
      modifies this
      ensures Valid()
      ensures t !in old(textures) && textures == old(textures)[t := desc]
    {
      t := nextHandle;
      textures := textures[t := desc];
      nextHandle := nextHandle + 1;
    }

    method DestroyTexture(t: nat)
      requires Valid()
      modifies this
      ensures Valid()
      ensures textures == old(textures) - {t}
    {
      textures := textures - {t};
    }
  }

  // ------------------------------------------------------------- the pass

  class PickingPass {
    const device: Device

    // reflected properties, written by the editor
    var pickSelected: bool
    var pickTransparent: bool
    var pickingPosition: Pos
    var marqueePosition0: Pos
    var marqueePosition1: Pos
    var marqueeActionId: u32

    var targetRect: Rect
    var idTarget: Option<nat>
    var depthTarget: Option<nat>

    var windowWidth: u32
    var windowHeight: u32
    var selectionSet: set<nat>
    var pending: PendingReadback
    var buffers: PickBuffers

    /** The readback record and the pick buffers agree with each other and with the window. */
    predicate Valid()
      reads this
    {
      DimsFit(windowWidth, windowHeight) && PendingWellFormed(pending) &&
      BuffersMatch(buffers, windowWidth, windowHeight) && BuffersMatch(buffers, pending.width, pending.height)
    }

    /** Both render targets are alive on the device. */
    predicate TargetsAlive()
      reads this, device
    {
      idTarget.Some? && depthTarget.Some? && idTarget.value in device.textures && depthTarget.value in device.textures
    }

    constructor (device: Device)
      ensures Valid() && this.device == device
      ensures idTarget == None && depthTarget == None && buffers == EmptyBuffers() && !pending.inProgress
    {
      this.device := device;
      pickSelected := true;
      pickTransparent := true;
      pickingPosition := Pos(-1.0, -1.0);
      marqueePosition0 := Pos(-1.0, -1.0);
      marqueePosition1 := Pos(-1.0, -1.0);
      marqueeActionId := 0;
      targetRect := Rect(0.0, 0.0);
      idTarget := None;
      depthTarget := None;
      windowWidth := 0;
      windowHeight := 0;
      selectionSet := {};
      pending := PendingReadback(false, 0, 0, ZeroMatrix(), [], []);
      buffers := EmptyBuffers();
    }

    /** Records the viewport the targets are sized for. */
    method GetRenderTargetDescriptions(viewport: Rect) returns (ok: bool)
      modifies this`targetRect
      ensures ok && targetRect == viewport
    {
      targetRect := viewport;
      ok := true;
    }

    /** Creates the id target (RGBA8) and the depth target (float depth), both of the
        target rectangle's size and usable as render targets only. */
    method CreateTarget()
      requires device.Valid()
      modifies this`idTarget, this`depthTarget, device
      ensures device.Valid() && TargetsAlive() && idTarget.value != depthTarget.value
      ensures idTarget.value !in old(device.textures) && depthTarget.value !in old(device.textures)
      ensures device.textures == old(device.textures)
        [idTarget.value := TargetDesc(targetRect, RGBAUByteNormalized)]
        [depthTarget.value := TargetDesc(targetRect, DFloat)]
    {
      var desc := TargetDesc(targetRect, RGBAUByteNormalized);
      var hId := device.CreateTexture(desc);
      var hDepth := device.CreateTexture(desc.(format := DFloat));
      idTarget := Some(hId);
      depthTarget := Some(hDepth);
    }

    static function TargetDesc(rect: Rect, format: TextureFormat): (d: TextureDesc)
      ensures d.format == format && d.renderTargetView && !d.shaderResourceView
      ensures d.width == FloatToU32(rect.width) && d.height == FloatToU32(rect.height)
    {
      TextureDesc(FloatToU32(rect.width), FloatToU32(rect.height), format, true, false)
    }

    /** Destroys whichever targets are valid and invalidates both handles; a second call
        has no further effect. */
    method DestroyTarget()
      requires device.Valid()
      modifies this`idTarget, this`depthTarget, device
      ensures device.Valid() && idTarget == None && depthTarget == None
      ensures device.textures == old(device.textures) - HandleSet(old(idTarget)) - HandleSet(old(depthTarget))
    {
      if idTarget.Some? {
        device.DestroyTexture(idTarget.value);
        idTarget := None;
      }
      if depthTarget.Some? {
        device.DestroyTexture(depthTarget.value);
        depthTarget := None;
      }
    }

    static function HandleSet(t: Option<nat>): (s: set<nat>)
      ensures t.None? ==> s == {}
      ensures t.Some? ==> s == {t.value}
    {
      if t.Some? then {t.value} else {}
    }

    /** Re-creates both targets for the current target rectangle, releasing the old ones. */
    method InitRenderPipelinePass()
      requires device.Valid()
      modifies this`idTarget, this`depthTarget, device
      ensures device.Valid() && TargetsAlive()
      ensures device.textures ==
        (old(device.textures) - HandleSet(old(idTarget)) - HandleSet(old(depthTarget)))
        [idTarget.value := TargetDesc(targetRect, RGBAUByteNormalized)]
        [depthTarget.value := TargetDesc(targetRect, DFloat)]
    {
      DestroyTarget();
      CreateTarget();
    }

    /**
     * One frame: draw ids and depth, consume last frame's readback, submit this frame's.
     * `frame` is what the draws leave in the two targets; `idReady`/`depthReady` are the
     * outcomes of waiting for the previous readback (`failed` reports the fatal assertion
     * when one is not ready); `inverse` is the inverted view-projection matrix, None when
     * the inversion fails.
     */
    method Execute(viewport: Rect, mode: ViewRenderMode, selectionBatches: seq<seq<RenderData>>,
                   frame: RenderedFrame, idReady: bool, depthReady: bool,
                   projectionIsNaN: bool, inverse: Option<Mat4>)
      returns (draws: seq<DrawCommand>, failed: bool)
      requires Valid()
      requires DimsFit(FloatToU32(viewport.width), FloatToU32(viewport.height))
      requires depthTarget.Some? && depthTarget.value in device.textures
      requires device.textures[depthTarget.value].width == FloatToU32(viewport.width)
      requires device.textures[depthTarget.value].height == FloatToU32(viewport.height)
      requires |frame.ids| == |frame.depths| == FloatToU32(viewport.width) * FloatToU32(viewport.height)
      modifies this`windowWidth, this`windowHeight, this`selectionSet, this`pending, this`buffers
      ensures windowWidth == FloatToU32(viewport.width) && windowHeight == FloatToU32(viewport.height)
      ensures draws == DrawSequence(mode, pickTransparent, pickSelected)
      ensures forall o :: o in selectionSet <==>
        exists i, j :: 0 <= i < |selectionBatches| && 0 <= j < |selectionBatches[i]| && selectionBatches[i][j].owner == o
      ensures failed <==> old(pending.inProgress) && !(idReady && depthReady)
      ensures failed ==> pending == old(pending) && buffers == old(buffers)
      ensures !failed ==> Valid()
      ensures !failed ==>
        var (p1, b1) := ConsumeReadback(old(pending), windowWidth, windowHeight, old(buffers));
        buffers == b1 && pending == SubmitReadback(p1, windowWidth, windowHeight, frame, projectionIsNaN, inverse)
    {
      var w, h := FloatToU32(viewport.width), FloatToU32(viewport.height);
      windowWidth, windowHeight := w, h;
      draws := DrawSequence(mode, pickTransparent, pickSelected);
      selectionSet := CollectSelection(selectionBatches);

      if pending.inProgress && !(idReady && depthReady) {
        failed := true;
        return;
      }
      failed := false;

      var consumed := ConsumeReadback(pending, w, h, buffers);
      ReadbackStepMatches(pending, buffers, w, h, frame, projectionIsNaN, inverse);
      pending, buffers := SubmitReadback(consumed.0, w, h, frame, projectionIsNaN, inverse), consumed.1;
    }

    /** The single pick answered for a picking position from the current buffers: None
        when the guard rejects the position. */
    function SinglePickAnswer(unproject: (Mat4, u32, u32, real, real, real) -> Vec3,
                              triangleNormal: (Vec3, Vec3, Vec3) -> Vec3,
                              normalize: Vec3 -> Vec3, at: Pos): Option<SinglePickResult>
      reads this
      requires Valid()
    {
      var w, h := windowWidth, windowHeight;
      var x, y := FloatToU32(at.x), FloatToU32(at.y);
      var m := buffers.inverseViewProjection;
      if SinglePickAccepted(|buffers.depths|, w, h, x, y) then
        SinglePickAcceptedIff(|buffers.depths|, w, h, x, y);
        Some(SinglePickResult(
          m,
          FirstNonZero(buffers.ids, w, PickOrder(w, h, x, y)),
          DepthAt(buffers.depths, w, Pixel(x, y)),
          PickNormal(unproject, triangleNormal, normalize, m, w, h, buffers.depths, x, y),
          unproject(m, w, h, x as real, y as real, 0.0),
          unproject(m, w, h, x as real, y as real, DepthAt(buffers.depths, w, Pixel(x, y)))))
      else None
    }

    /** The marquee pick answered for two corners from the current buffers: None when the
        guard rejects the corners. */
    function MarqueePickAnswer(corner0: Pos, corner1: Pos): Option<MarqueePickResult>
      reads this
    {
      var x0, y0 := FloatToU32(corner0.x), FloatToU32(corner0.y);
      var x1, y1 := FloatToU32(corner1.x), FloatToU32(corner1.y);
      if MarqueeAccepted(|buffers.depths|, windowWidth, windowHeight, x0, y0, x1, y1) then
        var lowX, highX := if x0 <= x1 then x0 else x1, if x0 <= x1 then x1 else x0;
        var lowY, highY := if y0 <= y1 then y0 else y1, if y0 <= y1 then y1 else y0;
        Some(MarqueePickResult(marqueeActionId,
                               MarqueeIds(buffers.ids, windowWidth, Checkerboard(lowX, highX, lowY, highY, 0))))
      else None
    }

    /**
     * Answers the single pick at `pickingPosition` from the buffers. `unproject` maps a
     * screen position and depth to world space with the given matrix and window size,
     * `triangleNormal` is the normal of a triangle, `normalize` scales to unit length.
     * Returns None (and leaves the position) when the position is outside the image.
     */
    method ReadBackPropertiesSinglePick(unproject: (Mat4, u32, u32, real, real, real) -> Vec3,
                                        triangleNormal: (Vec3, Vec3, Vec3) -> Vec3,
                                        normalize: Vec3 -> Vec3)
      returns (published: Option<SinglePickResult>)
      requires Valid()
      modifies this`pickingPosition
      ensures Valid()
      ensures var w, h := windowWidth, windowHeight;
        var x, y := FloatToU32(old(pickingPosition).x), FloatToU32(old(pickingPosition).y);
        var m := buffers.inverseViewProjection;
        if SinglePickAccepted(|buffers.depths|, w, h, x, y) then
          x < w && y < h && pickingPosition == Pos(-1.0, -1.0) &&
          published == Some(SinglePickResult(
            m,
            FirstNonZero(buffers.ids, w, PickOrder(w, h, x, y)),
            DepthAt(buffers.depths, w, Pixel(x, y)),
            PickNormal(unproject, triangleNormal, normalize, m, w, h, buffers.depths, x, y),
            unproject(m, w, h, x as real, y as real, 0.0),
            unproject(m, w, h, x as real, y as real, DepthAt(buffers.depths, w, Pixel(x, y)))))
        else
          published.None? && pickingPosition == old(pickingPosition)
      ensures published == SinglePickAnswer(unproject, triangleNormal, normalize, old(pickingPosition))
    {
      var w, h := windowWidth, windowHeight;
      var x, y := FloatToU32(pickingPosition.x), FloatToU32(pickingPosition.y);
      if !SinglePickAccepted(|buffers.depths|, w, h, x, y) {
        return None;
      }
      SinglePickAcceptedIff(|buffers.depths|, w, h, x, y);
      pickingPosition := Pos(-1.0, -1.0);
      var m := buffers.inverseViewProjection;
      var depth := ReadDepth(buffers.depths, w, h, x, y);
      var position := unproject(m, w, h, x as real, y as real, depth);
      var rayStart := unproject(m, w, h, x as real, y as real, 0.0);
      var normal := PickNormal(unproject, triangleNormal, normalize, m, w, h, buffers.depths, x, y);
      var id := FindPickId(buffers.ids, w, h, x, y);
      published := Some(SinglePickResult(m, id, depth, normal, rayStart, position));
    }

    /** Answers the marquee pick between the two marquee corners from the buffers.
        Returns None (and leaves the corners) when a corner is outside the image. */
    method ReadBackPropertiesMarqueePick() returns (published: Option<MarqueePickResult>)
      requires Valid()
      modifies this`marqueePosition0, this`marqueePosition1
      ensures Valid()
      ensures var x0, y0 := FloatToU32(old(marqueePosition0).x), FloatToU32(old(marqueePosition0).y);
        var x1, y1 := FloatToU32(old(marqueePosition1).x), FloatToU32(old(marqueePosition1).y);
        if MarqueeAccepted(|buffers.depths|, windowWidth, windowHeight, x0, y0, x1, y1) then
          var lowX, highX := if x0 <= x1 then x0 else x1, if x0 <= x1 then x1 else x0;
          var lowY, highY := if y0 <= y1 then y0 else y1, if y0 <= y1 then y1 else y0;
          highX < windowWidth && highY < windowHeight && |buffers.ids| == windowWidth * windowHeight &&
          marqueePosition0 == Pos(-1.0, -1.0) && marqueePosition1 == Pos(-1.0, -1.0) &&
          published == Some(MarqueePickResult(marqueeActionId,
                                              MarqueeIds(buffers.ids, windowWidth, Checkerboard(lowX, highX, lowY, highY, 0))))
        else
          published.None? && marqueePosition0 == old(marqueePosition0) && marqueePosition1 == old(marqueePosition1)
      ensures published == MarqueePickAnswer(old(marqueePosition0), old(marqueePosition1))
    {
      var w, h := windowWidth, windowHeight;
      var x0, y0 := FloatToU32(marqueePosition0.x), FloatToU32(marqueePosition0.y);
      var x1, y1 := FloatToU32(marqueePosition1.x), FloatToU32(marqueePosition1.y);
      if !MarqueeAccepted(|buffers.depths|, w, h, x0, y0, x1, y1) {
        return None;
      }
      MarqueeAcceptedIff(|buffers.depths|, w, h, x0, y0, x1, y1);
      marqueePosition0 := Pos(-1.0, -1.0);
      marqueePosition1 := Pos(-1.0, -1.0);
      var lowX, highX := if x0 <= x1 then x0 else x1, if x0 <= x1 then x1 else x0;
      var lowY, highY := if y0 <= y1 then y0 else y1, if y0 <= y1 then y1 else y0;
      var ids := ScanMarquee(buffers.ids, w, h, lowX, highX, lowY, highY);
      published := Some(MarqueePickResult(marqueeActionId, ids));
    }

    /** Both picks, single first: each is answered from the buffers for the positions it
        was given, and a position that was answered is reset to (-1, -1). */
    method ReadBackProperties(unproject: (Mat4, u32, u32, real, real, real) -> Vec3,
                              triangleNormal: (Vec3, Vec3, Vec3) -> Vec3,
                              normalize: Vec3 -> Vec3)
      returns (single: Option<SinglePickResult>, marquee: Option<MarqueePickResult>)
      requires Valid()
      modifies this`pickingPosition, this`marqueePosition0, this`marqueePosition1
      ensures Valid()
      ensures single.Some? <==> SinglePickAccepted(|buffers.depths|, windowWidth, windowHeight,
                                                   FloatToU32(old(pickingPosition).x), FloatToU32(old(pickingPosition).y))
      ensures marquee.Some? <==> MarqueeAccepted(|buffers.depths|, windowWidth, windowHeight,
                                                 FloatToU32(old(marqueePosition0).x), FloatToU32(old(marqueePosition0).y),
                                                 FloatToU32(old(marqueePosition1).x), FloatToU32(old(marqueePosition1).y))
      ensures single == SinglePickAnswer(unproject, triangleNormal, normalize, old(pickingPosition))
      ensures marquee == MarqueePickAnswer(old(marqueePosition0), old(marqueePosition1))
      ensures pickingPosition == if single.Some? then Pos(-1.0, -1.0) else old(pickingPosition)
      ensures marqueePosition0 == if marquee.Some? then Pos(-1.0, -1.0) else old(marqueePosition0)
      ensures marqueePosition1 == if marquee.Some? then Pos(-1.0, -1.0) else old(marqueePosition1)
    {
      single := ReadBackPropertiesSinglePick(unproject, triangleNormal, normalize);
      marquee := ReadBackPropertiesMarqueePick();
    }
  }
}
