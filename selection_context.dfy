/**
  The selection input context of the editor's engine views: clicking picks an object and
  changes the document's selection (or hands the object to a pick override), and dragging
  with the space bar held draws a marquee whose corners are sent to the engine process.

  Document objects are identified by `Obj`. The object tree is a `Hierarchy`: each object
  other than the root has a parent, and every object carries its depth in the tree, which
  makes the parent chain finite. Picking in the view, the gizmos and the messages to the
  engine are inputs and outputs of the handlers.
*/
module SelectionContext {
  import opened Common

  type Obj = nat

  /** The document's object tree and which objects were created from a prefab. */
  datatype Hierarchy = Hierarchy(parent: map<Obj, Obj>, depth: map<Obj, nat>, root: Obj, fromPrefab: set<Obj>)

  /** Every object's parent is the root or another object of the tree, one level up;
      the root has no parent. */
  predicate WellFormed(h: Hierarchy) {
    h.root !in h.parent && h.root in h.depth &&
    forall o :: o in h.parent ==>
      o in h.depth && h.parent[o] in h.depth && h.depth[h.parent[o]] < h.depth[o] &&
      (h.parent[o] == h.root || h.parent[o] in h.parent)
  }

  /** `o` is an object of the tree. */
  predicate InTree(h: Hierarchy, o: Obj) {
    o == h.root || o in h.parent
  }

  /** The parent chain of `o`, from `o` itself up to but excluding the root. */
  function Chain(h: Hierarchy, o: Obj): (c: seq<Obj>)
    requires WellFormed(h) && InTree(h, o)
    ensures h.root !in c
    ensures o != h.root ==> |c| > 0 && c[0] == o
    ensures forall x :: x in c ==> x in h.parent
    decreases h.depth[o]
  {
    if o == h.root then [] else [o] + Chain(h, h.parent[o])
  }

  /** The parent chain of `o` including the root, where the walk ends. */
  function Lineage(h: Hierarchy, o: Obj): (l: seq<Obj>)
    requires WellFormed(h) && InTree(h, o)
    ensures |l| > 0 && l[0] == o && l[|l| - 1] == h.root
  {
    Chain(h, o) + [h.root]
  }

  /** The first index of `s` whose element satisfies `p`; `|s|` when there is none. */
  function FirstIndex(s: seq<Obj>, p: Obj -> bool): (k: nat)
    ensures k <= |s|
    ensures forall j :: 0 <= j < k ==> !p(s[j])
    ensures k < |s| ==> p(s[k])
  {
    if s == [] then 0
    else if p(s[0]) then 0
    else 1 + FirstIndex(s[1..], p)
  }

  /** The result of the selection test together with its two out-parameters. */
  datatype InSelection = InSelection(found: bool, parentInSelection: Option<Obj>, parentChild: Option<Obj>)

  /** Whether `o` or one of its ancestors below the root is selected. When it is,
      `parentInSelection` becomes the nearest selected ancestor-or-self and a still empty
      `parentChild` becomes the object just below it on the chain (it stays empty when
      `o` itself is selected). The out-parameters are untouched when nothing is found. */
  function IsInSelection(selection: seq<Obj>, o: Obj, parentInSelection: Option<Obj>,
                         parentChild: Option<Obj>, h: Hierarchy): (r: InSelection)
    requires WellFormed(h) && InTree(h, o)
    ensures var c := Chain(h, o); var k := FirstIndex(c, x => x in selection);
      (r.found <==> k < |c|) &&
      (!r.found ==> r.parentInSelection == parentInSelection && r.parentChild == parentChild) &&
      (r.found ==> r.parentInSelection == Some(c[k])) &&
      (r.found && parentChild.Some? ==> r.parentChild == parentChild) &&
      (r.found && parentChild.None? ==> r.parentChild == if k == 0 then None else Some(c[k - 1]))
    decreases h.depth[o]
  {
    if o == h.root then InSelection(false, parentInSelection, parentChild)
    else if o in selection then InSelection(true, Some(o), parentChild)
    else
      var up := IsInSelection(selection, h.parent[o], parentInSelection, parentChild, h);
      assert Chain(h, o)[1..] == Chain(h, h.parent[o]);
      if up.found then
        InSelection(true, up.parentInSelection, if up.parentChild.None? then Some(o) else up.parentChild)
      else InSelection(false, up.parentInSelection, up.parentChild)
  }

  /** The test "created from a prefab", as a function on objects. */
  function FromPrefab(h: Hierarchy): Obj -> bool {
    x => x in h.fromPrefab
  }

  /** The nearest ancestor-or-self of `o` (root included) that was created from a prefab,
      or `o` itself when there is none. */
  function PrefabParentOrSelf(h: Hierarchy, o: Obj): (r: Obj)
    requires WellFormed(h) && InTree(h, o)
    ensures r in Lineage(h, o)
    ensures r == o || r in h.fromPrefab
    ensures r in h.fromPrefab ==>
      exists k :: 0 <= k < |Lineage(h, o)| && Lineage(h, o)[k] == r &&
        forall j :: 0 <= j < k ==> Lineage(h, o)[j] !in h.fromPrefab
    ensures r !in h.fromPrefab ==> forall x :: x in Lineage(h, o) ==> x !in h.fromPrefab
  {
    var l := Lineage(h, o);
    var k := FirstIndex(l, FromPrefab(h));
    if k < |l| then l[k] else o
  }

  lemma LineageStep(h: Hierarchy, o: Obj)
    requires WellFormed(h) && o in h.parent
    ensures Lineage(h, o) == [o] + Lineage(h, h.parent[o])
  {
  }

  /** Where the walk up a lineage `l` stands after visiting `x` at position `i`: at the
      parent, one position on, or at the end of `l` when `x` has no parent. */
  lemma LineageWalk(h: Hierarchy, l: seq<Obj>, x: Obj, i: nat)
    requires WellFormed(h) && InTree(h, x) && i < |l| && Lineage(h, x) == l[i..]
    ensures l[i] == x
    ensures x in h.parent ==> i + 1 < |l| && InTree(h, h.parent[x]) && Lineage(h, h.parent[x]) == l[i + 1..]
    ensures x !in h.parent ==> i + 1 == |l|
  {
    if x in h.parent {
      LineageStep(h, x);
      assert l[i..][1..] == l[i + 1..];
    } else {
      assert Lineage(h, x) == [x];
    }
  }

  /** Walks up from `o` to the root and returns the first object created from a prefab, or `o`. */
  method GetPrefabParentOrSelf(h: Hierarchy, o: Obj) returns (r: Obj)
    requires WellFormed(h) && InTree(h, o)
    ensures r == PrefabParentOrSelf(h, o)
  {
    ghost var l := Lineage(h, o);
    ghost var i := 0;
    var current: Option<Obj> := Some(o);
    while current.Some?
      invariant 0 <= i <= |l|
      invariant current.Some? ==> i < |l| && InTree(h, current.value) && Lineage(h, current.value) == l[i..]
      invariant current.None? ==> i == |l|
      invariant i <= FirstIndex(l, FromPrefab(h))
      decreases |l| - i
    {
      var x := current.value;
      LineageWalk(h, l, x, i);
      FirstIndexStep(l, FromPrefab(h), i);
      if x in h.fromPrefab {
        return x;
      }
      if x in h.parent {
        current := Some(h.parent[x]);
      } else {
        current := None;
      }
      i := i + 1;
    }
    r := o;
  }

  /** A scan that has passed no match up to `i` either stops at `i` or passes it. */
  lemma FirstIndexStep(s: seq<Obj>, p: Obj -> bool, i: nat)
    requires i < |s| && i <= FirstIndex(s, p)
    ensures p(s[i]) ==> FirstIndex(s, p) == i
    ensures !p(s[i]) ==> i + 1 <= FirstIndex(s, p)
  {
  }

  /** The object a click selects, given the current selection. When the picked object is not
      (below) a selected object the click selects it (Alt) or its prefab parent. Otherwise:
      with Ctrl the selected ancestor-or-self is toggled, with Alt the picked object is
      taken, a multi-selection is replaced by the prefab parent, and a single selection is
      drilled into one level: the selected object's child on the way to the picked object. */
  function DetermineObjectToSelect(h: Hierarchy, selection: seq<Obj>, picked: Obj, toggle: bool, direct: bool): (r: Obj)
    requires WellFormed(h) && InTree(h, picked)
    ensures r in Lineage(h, picked)
    ensures var c := Chain(h, picked); var k := FirstIndex(c, x => x in selection);
      (k == |c| ==> r == if direct then picked else PrefabParentOrSelf(h, picked)) &&
      (k < |c| && toggle ==> r == c[k] && r in selection) &&
      (k < |c| && !toggle && direct ==> r == picked) &&
      (k < |c| && !toggle && !direct && |selection| > 1 ==> r == PrefabParentOrSelf(h, picked)) &&
      (k < |c| && !toggle && !direct && |selection| <= 1 ==> r == if k == 0 then picked else c[k - 1])
  {
    var res := IsInSelection(selection, picked, None, None, h);
    if !res.found then
      (if direct then picked else PrefabParentOrSelf(h, picked))
    else if toggle then res.parentInSelection.value
    else if direct then picked
    else if |selection| > 1 then PrefabParentOrSelf(h, picked)
    else if res.parentInSelection == Some(picked) then picked
    else match res.parentChild
      case None => (match res.parentInSelection case Some(p) => p case None => picked)
      case Some(child) => child
  }

  /** Clicking a selected object's descendant twice, without modifiers, walks down the
      chain: the second click selects the next object towards the picked one. */
  lemma {:induction false} DrillDownApproachesPicked(h: Hierarchy, selected: Obj, picked: Obj)
    requires WellFormed(h) && InTree(h, picked)
    requires selected in Chain(h, picked)
    ensures var next := DetermineObjectToSelect(h, [selected], picked, false, false);
      next in Chain(h, picked) &&
      (next == picked || exists k :: 0 < k < |Chain(h, picked)| && Chain(h, picked)[k] == selected && Chain(h, picked)[k - 1] == next)
  {
    var c := Chain(h, picked);
    var k := FirstIndex(c, x => x in [selected]);
    assert k < |c| by {
      var i :| 0 <= i < |c| && c[i] == selected;
      assert (x => x in [selected])(c[i]);
    }
  }

  /** The input-handling modes of the context. */
  datatype Mode = NoMode | Single | MarqueeAdd | MarqueeRemove

  /** Whether an input event was consumed by this context. */
  datatype EditorInput = MayBeHandledByOthers | WasExclusivelyHandled

  datatype MouseButton = LeftButton | MiddleButton | RightButton

  datatype Key = SpaceKey | DeleteKey | EscapeKey | OtherKey

  /** What the marquee message asks the engine to do with the marquee's objects. */
  const MARQUEE_ADD: u8 := 1
  const MARQUEE_REMOVE: u8 := 2
  const MARQUEE_PREVIEW: u8 := 0xFF

  /** Step of the marquee action identifier per new marquee. */
  const MARQUEE_ID_STEP: int := 23

  /** The marquee picking message sent to the engine process. */
  datatype MarqueeMsg = MarqueeMsg(pickPosX0: u16, pickPosY0: u16, pickPosX1: u16, pickPosY1: u16,
                                   whatToDo: u8, actionIdentifier: u32)

  /** The object highlighted under the cursor: the picked component, else the picked other
      object, else the picked object. */
  datatype PickResult = PickResult(pickedObject: Option<Obj>, pickedComponent: Option<Obj>, pickedOther: Option<Obj>)

  function HighlightObject(res: PickResult): (r: Option<Obj>)
    ensures r.None? <==> res.pickedObject.None? && res.pickedComponent.None? && res.pickedOther.None?
    ensures res.pickedComponent.Some? ==> r == res.pickedComponent
    ensures res.pickedComponent.None? && res.pickedOther.Some? ==> r == res.pickedOther
    ensures res.pickedComponent.None? && res.pickedOther.None? ==> r == res.pickedObject
    ensures r.Some? ==> r == res.pickedComponent || r == res.pickedOther || r == res.pickedObject
  {
    if res.pickedComponent.Some? then res.pickedComponent
    else if res.pickedOther.Some? then res.pickedOther
    else res.pickedObject
  }

  class SelectionContextState {
    var mode: Mode
    var pressedSpace: bool
    var marqueeId: u32
    var marqueeStartX: int
    var marqueeStartY: int
    /** Whether a pick override is registered. */
    var pickOverride: bool
    /** Whether this context is the view's active input context. */
    var isActive: bool
    /** The document's selection. */
    var selection: seq<Obj>
    /** Objects handed to the pick override, oldest first (`None` is the null object). */
    var overrideCalls: seq<Option<Obj>>
    /** Marquee messages sent to the engine, oldest first. */
    var sentMarquee: seq<MarqueeMsg>

    constructor ()
      ensures mode == NoMode && !pressedSpace && marqueeId == 0 && !pickOverride && !isActive
      ensures selection == [] && overrideCalls == [] && sentMarquee == []
    {
      mode := NoMode;
      pressedSpace := false;
      marqueeId := 0;
      marqueeStartX, marqueeStartY := 0, 0;
      pickOverride := false;
      isActive := false;
      selection := [];
      overrideCalls := [];
      sentMarquee := [];
    }

    method SetPickObjectOverride()
      modifies this
      ensures pickOverride
      ensures mode == old(mode) && pressedSpace == old(pressedSpace) && selection == old(selection)
      ensures overrideCalls == old(overrideCalls) && sentMarquee == old(sentMarquee)
      ensures marqueeId == old(marqueeId) && isActive == old(isActive)
      ensures marqueeStartX == old(marqueeStartX) && marqueeStartY == old(marqueeStartY)
    {
      pickOverride := true;
    }

    method ResetPickObjectOverride()
      modifies this
      ensures !pickOverride
      ensures mode == old(mode) && pressedSpace == old(pressedSpace) && selection == old(selection)
      ensures overrideCalls == old(overrideCalls) && sentMarquee == old(sentMarquee)
      ensures marqueeId == old(marqueeId) && isActive == old(isActive)
      ensures marqueeStartX == old(marqueeStartX) && marqueeStartY == old(marqueeStartY)
    {
      pickOverride := false;
    }

    /** Losing focus ends any interaction: no mode, space released, context inactive. */
    method DoFocusLost(cancel: bool)
      modifies this
      ensures mode == NoMode && !pressedSpace && !isActive
      ensures selection == old(selection) && pickOverride == old(pickOverride)
      ensures overrideCalls == old(overrideCalls) && sentMarquee == old(sentMarquee)
      ensures marqueeId == old(marqueeId)
      ensures marqueeStartX == old(marqueeStartX) && marqueeStartY == old(marqueeStartY)
    {
      pressedSpace := false;
      mode := NoMode;
      isActive := false;
    }

    /** A left press starts a single pick, or a marquee when space is held and no pick
        override is registered: the marquee gets a new action identifier and removes with
        Ctrl, adds otherwise. A press on a gizmo handle goes to the gizmo instead, whose
        answer is `gizmoAnswer`. */
    method DoMousePressEvent(button: MouseButton, onGizmoHandle: bool, gizmoAnswer: EditorInput,
                             ctrl: bool, x: int, y: int) returns (res: EditorInput)
      modifies this
      ensures button != LeftButton ==> res == MayBeHandledByOthers && mode == old(mode) && marqueeId == old(marqueeId)
      ensures button == LeftButton && onGizmoHandle ==> res == gizmoAnswer && mode == old(mode) && marqueeId == old(marqueeId)
      ensures button == LeftButton && !onGizmoHandle && !(old(pressedSpace) && !old(pickOverride)) ==>
        res == MayBeHandledByOthers && mode == Single && marqueeId == old(marqueeId)
      ensures button == LeftButton && !onGizmoHandle && old(pressedSpace) && !old(pickOverride) ==>
        res == WasExclusivelyHandled && marqueeId == ToU32(old(marqueeId) + MARQUEE_ID_STEP) &&
        mode == (if ctrl then MarqueeRemove else MarqueeAdd) &&
        marqueeStartX == x && marqueeStartY == y && isActive
      ensures !(button == LeftButton && !onGizmoHandle && old(pressedSpace) && !old(pickOverride)) ==>
        isActive == old(isActive) && marqueeStartX == old(marqueeStartX) && marqueeStartY == old(marqueeStartY)
      ensures pressedSpace == old(pressedSpace) && pickOverride == old(pickOverride) && selection == old(selection)
      ensures overrideCalls == old(overrideCalls) && sentMarquee == old(sentMarquee)
    {
      if button != LeftButton {
        return MayBeHandledByOthers;
      }
      if onGizmoHandle {
        return gizmoAnswer;
      }
      mode := Single;
      if pressedSpace && !pickOverride {
        marqueeId := ToU32(marqueeId + MARQUEE_ID_STEP);
        marqueeStartX, marqueeStartY := x, y;
        mode := if ctrl then MarqueeRemove else MarqueeAdd;
        isActive := true;
        return WasExclusivelyHandled;
      }
      return MayBeHandledByOthers;
    }

    /** The marquee message for the current cursor position; each corner is cut to 16 bits. */
    function MarqueeMessage(x: int, y: int, whatToDo: u8): (msg: MarqueeMsg)
      reads this
      ensures msg.whatToDo == whatToDo && msg.actionIdentifier == marqueeId
      ensures 0 <= marqueeStartX < 0x1_0000 && 0 <= marqueeStartY < 0x1_0000 ==>
        msg.pickPosX0 == marqueeStartX && msg.pickPosY0 == marqueeStartY
      ensures 0 <= x < 0x1_0000 && 0 <= y < 0x1_0000 ==> msg.pickPosX1 == x && msg.pickPosY1 == y
    {
      MarqueeMsg(ToU16(marqueeStartX), ToU16(marqueeStartY), ToU16(x), ToU16(y), whatToDo, marqueeId)
    }

    method SendMarqueeMsg(x: int, y: int, whatToDo: u8)
      modifies this
      ensures sentMarquee == old(sentMarquee) + [old(MarqueeMessage(x, y, whatToDo))]
      ensures mode == old(mode) && pressedSpace == old(pressedSpace) && selection == old(selection)
      ensures overrideCalls == old(overrideCalls) && pickOverride == old(pickOverride)
      ensures marqueeId == old(marqueeId) && isActive == old(isActive)
      ensures marqueeStartX == old(marqueeStartX) && marqueeStartY == old(marqueeStartY)
    {
      sentMarquee := sentMarquee + [MarqueeMessage(x, y, whatToDo)];
    }

    /** Applies a click to the picked object: an unknown object is ignored, a registered pick
        override receives the object and the selection stays, otherwise Ctrl toggles the
        object to select and a plain click makes it the whole selection. */
    method SelectPickedObject(h: Hierarchy, picked: Option<Obj>, toggle: bool, direct: bool)
      requires WellFormed(h)
      requires picked.Some? ==> InTree(h, picked.value)
      modifies this
      ensures picked.None? ==> selection == old(selection) && overrideCalls == old(overrideCalls)
      ensures picked.Some? && pickOverride ==>
        overrideCalls == old(overrideCalls) + [picked] && selection == old(selection)
      ensures picked.Some? && !pickOverride && toggle ==>
        overrideCalls == old(overrideCalls) &&
        selection == Toggle(old(selection), DetermineObjectToSelect(h, old(selection), picked.value, true, direct))
      ensures picked.Some? && !pickOverride && !toggle ==>
        overrideCalls == old(overrideCalls) &&
        selection == [DetermineObjectToSelect(h, old(selection), picked.value, false, direct)]
      ensures mode == old(mode) && pressedSpace == old(pressedSpace) && pickOverride == old(pickOverride)
      ensures sentMarquee == old(sentMarquee) && marqueeId == old(marqueeId) && isActive == old(isActive)
      ensures marqueeStartX == old(marqueeStartX) && marqueeStartY == old(marqueeStartY)
    {
      if picked.None? {
        return;
      }
      if pickOverride {
        overrideCalls := overrideCalls + [picked];
      } else if toggle {
        selection := Toggle(selection, DetermineObjectToSelect(h, selection, picked.value, true, direct));
      } else {
        selection := [DetermineObjectToSelect(h, selection, picked.value, false, direct)];
      }
    }

    /** A left release ends the interaction: a single pick applies the click and loses focus;
        a marquee sends its final message (add or remove) and loses focus but keeps the
        space flag, so a new marquee can start while space is still held. */
    method DoMouseReleaseEvent(h: Hierarchy, button: MouseButton, ctrl: bool, alt: bool,
                               picked: Option<Obj>, x: int, y: int) returns (res: EditorInput)
      requires WellFormed(h)
      requires picked.Some? ==> InTree(h, picked.value)
      modifies this
      ensures button != LeftButton || old(mode) == NoMode ==>
        res == MayBeHandledByOthers && mode == old(mode) && pressedSpace == old(pressedSpace) &&
        selection == old(selection) && sentMarquee == old(sentMarquee) &&
        overrideCalls == old(overrideCalls) && isActive == old(isActive)
      ensures button == LeftButton && old(mode) == Single ==>
        res == WasExclusivelyHandled && mode == NoMode && !pressedSpace && !isActive &&
        sentMarquee == old(sentMarquee)
      ensures button == LeftButton && old(mode) == Single && picked.None? ==>
        selection == old(selection) && overrideCalls == old(overrideCalls)
      ensures button == LeftButton && old(mode) == Single && picked.Some? && pickOverride ==>
        overrideCalls == old(overrideCalls) + [picked] && selection == old(selection)
      ensures button == LeftButton && old(mode) == Single && picked.Some? && !pickOverride ==>
        overrideCalls == old(overrideCalls) &&
        selection == if ctrl then Toggle(old(selection), DetermineObjectToSelect(h, old(selection), picked.value, true, alt))
                     else [DetermineObjectToSelect(h, old(selection), picked.value, false, alt)]
      ensures button == LeftButton && old(mode) in {MarqueeAdd, MarqueeRemove} ==>
        res == WasExclusivelyHandled && mode == NoMode && pressedSpace == old(pressedSpace) && !isActive &&
        selection == old(selection) && overrideCalls == old(overrideCalls) &&
        sentMarquee == old(sentMarquee) +
          [old(MarqueeMessage(x, y, if mode == MarqueeAdd then MARQUEE_ADD else MARQUEE_REMOVE))]
      ensures pickOverride == old(pickOverride) && marqueeId == old(marqueeId)
      ensures marqueeStartX == old(marqueeStartX) && marqueeStartY == old(marqueeStartY)
    {
      if button == LeftButton {
        if mode == Single {
          SelectPickedObject(h, picked, ctrl, alt);
          DoFocusLost(false);
          return WasExclusivelyHandled;
        }
        if mode == MarqueeAdd || mode == MarqueeRemove {
          SendMarqueeMsg(x, y, if mode == MarqueeAdd then MARQUEE_ADD else MARQUEE_REMOVE);
          var keepSpace := pressedSpace;
          DoFocusLost(false);
          pressedSpace := keepSpace;
          return WasExclusivelyHandled;
        }
      }
      return MayBeHandledByOthers;
    }

    /** Moving the mouse during an active marquee sends a preview message; otherwise the
        object under the cursor is highlighted. */
    method DoMouseMoveEvent(x: int, y: int, pick: PickResult) returns (res: EditorInput, highlight: Option<Option<Obj>>)
      modifies this
      ensures isActive && mode in {MarqueeAdd, MarqueeRemove} ==>
        res == WasExclusivelyHandled && highlight.None? &&
        sentMarquee == old(sentMarquee) + [old(MarqueeMessage(x, y, MARQUEE_PREVIEW))]
      ensures !(isActive && mode in {MarqueeAdd, MarqueeRemove}) ==>
        res == MayBeHandledByOthers && highlight == Some(HighlightObject(pick)) && sentMarquee == old(sentMarquee)
      ensures mode == old(mode) && pressedSpace == old(pressedSpace) && selection == old(selection)
      ensures overrideCalls == old(overrideCalls) && pickOverride == old(pickOverride)
      ensures marqueeId == old(marqueeId) && isActive == old(isActive)
      ensures marqueeStartX == old(marqueeStartX) && marqueeStartY == old(marqueeStartY)
    {
      if isActive && (mode == MarqueeAdd || mode == MarqueeRemove) {
        SendMarqueeMsg(x, y, MARQUEE_PREVIEW);
        return WasExclusivelyHandled, None;
      }
      return MayBeHandledByOthers, Some(HighlightObject(pick));
    }

    /** Space arms the marquee; Delete asks the document to delete the selection; Escape
        cancels a pick override (telling it that nothing was picked), else cancels a marquee
        (keeping the space flag), else clears the selection. */
    method DoKeyPressEvent(key: Key) returns (res: EditorInput, deleteSelected: bool)
      modifies this
      ensures deleteSelected <==> key == DeleteKey
      ensures key == SpaceKey ==>
        pressedSpace && res == MayBeHandledByOthers && mode == old(mode) &&
        selection == old(selection) && isActive == old(isActive)
      ensures key == EscapeKey && old(pickOverride) ==>
        !pickOverride && overrideCalls == old(overrideCalls) + [None] && selection == old(selection) &&
        mode == old(mode) && pressedSpace == old(pressedSpace) && isActive == old(isActive)
      ensures key == EscapeKey && !old(pickOverride) && old(mode) in {MarqueeAdd, MarqueeRemove} ==>
        mode == NoMode && pressedSpace == old(pressedSpace) && !isActive && selection == old(selection)
      ensures key == EscapeKey && !old(pickOverride) && old(mode) !in {MarqueeAdd, MarqueeRemove} ==>
        selection == [] && mode == old(mode) && pressedSpace == old(pressedSpace) && isActive == old(isActive)
      ensures key in {DeleteKey, EscapeKey} ==> res == WasExclusivelyHandled
      ensures key !in {DeleteKey, EscapeKey} ==> res == MayBeHandledByOthers
      ensures key !in {SpaceKey, EscapeKey} ==>
        mode == old(mode) && pressedSpace == old(pressedSpace) && selection == old(selection) && isActive == old(isActive)
      ensures key != EscapeKey || !old(pickOverride) ==>
        overrideCalls == old(overrideCalls) && pickOverride == old(pickOverride)
      ensures sentMarquee == old(sentMarquee) && marqueeId == old(marqueeId)
      ensures marqueeStartX == old(marqueeStartX) && marqueeStartY == old(marqueeStartY)
    {
      deleteSelected := false;
      match key {
        case SpaceKey =>
          pressedSpace := true;
          return MayBeHandledByOthers, false;
        case DeleteKey =>
          return WasExclusivelyHandled, true;
        case EscapeKey =>
          if pickOverride {
            overrideCalls := overrideCalls + [None];
            ResetPickObjectOverride();
          } else if mode == MarqueeAdd || mode == MarqueeRemove {
            var keepSpace := pressedSpace;
            DoFocusLost(true);
            pressedSpace := keepSpace;
          } else {
            selection := [];
          }
          return WasExclusivelyHandled, false;
        case OtherKey =>
          return MayBeHandledByOthers, false;
      }
    }

    /** Releasing space disarms the marquee. */
    method DoKeyReleaseEvent(key: Key) returns (res: EditorInput)
      modifies this
      ensures res == MayBeHandledByOthers
      ensures key == SpaceKey ==> !pressedSpace
      ensures key != SpaceKey ==> pressedSpace == old(pressedSpace)
      ensures mode == old(mode) && selection == old(selection) && pickOverride == old(pickOverride)
      ensures overrideCalls == old(overrideCalls) && sentMarquee == old(sentMarquee)
      ensures marqueeId == old(marqueeId) && isActive == old(isActive)
      ensures marqueeStartX == old(marqueeStartX) && marqueeStartY == old(marqueeStartY)
    {
      if key == SpaceKey {
        pressedSpace := false;
      }
      return MayBeHandledByOthers;
    }
  }
}
