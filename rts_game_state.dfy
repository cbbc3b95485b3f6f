/**
  The game state of the RTS sample: the queued and the active game mode, the camera
  zoom, picking of a selectable unit under the cursor, the unit selection and the
  colour of a unit's health bar.

  Game objects are identified by handles (`ObjectId`). The spatial query that visits
  the objects near the picked ground position is an input: the candidates it visits,
  in visiting order, each with its squared distance to the ground position and its
  selection radius. Floating-point values are modelled as reals.
*/
module RTSGameState {
  import opened Common

  type ObjectId = nat

  /** The game mode that may be requested. */
  datatype RtsActiveGameMode = NoMode | MainMenuMode | BattleMode | EditLevelMode

  /** The three game-mode objects owned by the game state. */
  datatype GameMode = MainMenu | Battle | EditLevel

  /** A call made on a game-mode object. */
  datatype ModeEvent = Activate(mode: GameMode) | Deactivate(mode: GameMode)

  /** Result of one `SetActiveGameMode`: the new active mode and the calls made on the modes. */
  datatype Transition = Transition(active: Option<GameMode>, events: seq<ModeEvent>)

  /** The mode object that a request refers to (none for `NoMode`). */
  function ModeFor(request: RtsActiveGameMode): (m: Option<GameMode>)
    ensures m.None? <==> request == NoMode
    ensures request == MainMenuMode ==> m == Some(MainMenu)
    ensures request == BattleMode ==> m == Some(Battle)
    ensures request == EditLevelMode ==> m == Some(EditLevel)
  {
    match request
    case NoMode => None
    case MainMenuMode => Some(MainMenu)
    case BattleMode => Some(Battle)
    case EditLevelMode => Some(EditLevel)
  }

  /** Switching from `active` to `target`: nothing when it is already active; otherwise
      the old mode (if any) is deactivated before the new one (if any) is activated. */
  function SetActive(active: Option<GameMode>, target: Option<GameMode>): (r: Transition)
    ensures r.active == target
    ensures r.events == [] <==> active == target
    ensures |r.events| <= 2
    ensures active != target && target.Some? ==> r.events[|r.events| - 1] == Activate(target.value)
    ensures active != target && active.Some? ==> r.events[0] == Deactivate(active.value)
  {
    if active == target then Transition(active, [])
    else
      var leave := if active.Some? then [Deactivate(active.value)] else [];
      var enter := if target.Some? then [Activate(target.value)] else [];
      Transition(target, leave + enter)
  }

  /** Replays calls on the mode objects from a state in which `active` is the active mode;
      None when a call does not fit (activating while another mode is active, or
      deactivating a mode that is not the active one). */
  function Replay(active: Option<GameMode>, events: seq<ModeEvent>): Option<Option<GameMode>>
    decreases |events|
  {
    if events == [] then Some(active)
    else match events[0]
      case Activate(m) => if active.None? then Replay(Some(m), events[1..]) else None
      case Deactivate(m) => if active == Some(m) then Replay(None, events[1..]) else None
  }

  /** The calls made when the queued requests are activated one after another. */
  function ActivationEvents(active: Option<GameMode>, requests: seq<RtsActiveGameMode>): seq<ModeEvent>
    decreases |requests|
  {
    if requests == [] then []
    else
      var t := SetActive(active, ModeFor(requests[0]));
      t.events + ActivationEvents(t.active, requests[1..])
  }

  lemma ReplayAppend(active: Option<GameMode>, a: seq<ModeEvent>, b: seq<ModeEvent>, mid: Option<GameMode>)
    requires Replay(active, a) == Some(mid)
    ensures Replay(active, a + b) == Replay(mid, b)
    decreases |a|
  {
    if a != [] {
      assert a + b != [] && (a + b)[0] == a[0] && (a + b)[1..] == a[1..] + b;
      match a[0]
      case Activate(m) =>
        assert active.None? && Replay(Some(m), a[1..]) == Some(mid);
        ReplayAppend(Some(m), a[1..], b, mid);
        assert Replay(active, a + b) == Replay(Some(m), a[1..] + b);
      case Deactivate(m) =>
        assert active == Some(m) && Replay(None, a[1..]) == Some(mid);
        ReplayAppend(None, a[1..], b, mid);
        assert Replay(active, a + b) == Replay(None, a[1..] + b);
    } else {
      assert a + b == b;
    }
  }

  /** One transition fits the state it starts from and ends in its target. */
  lemma TransitionReplays(active: Option<GameMode>, target: Option<GameMode>)
    ensures Replay(active, SetActive(active, target).events) == Some(target)
  {
    var events := SetActive(active, target).events;
    if active != target && active.Some? && target.Some? {
      assert events == [Deactivate(active.value), Activate(target.value)];
      assert events[1..] == [Activate(target.value)];
      assert Replay(None, [Activate(target.value)]) == Replay(target, []);
      assert Replay(active, events) == Replay(None, [Activate(target.value)]);
    } else if active != target {
      assert |events| == 1;
      assert events[1..] == [];
    }
  }

  /** Whatever requests are queued, at most one mode is active at any time: every
      activation follows the deactivation of the previous mode, and replaying the calls
      ends in the mode of the last request. */
  lemma {:induction false} ActivationsAreBracketed(active: Option<GameMode>, requests: seq<RtsActiveGameMode>)
    requires requests != []
    ensures Replay(active, ActivationEvents(active, requests)) == Some(ModeFor(requests[|requests| - 1]))
    decreases |requests|
  {
    var t := SetActive(active, ModeFor(requests[0]));
    TransitionReplays(active, ModeFor(requests[0]));
    ReplayAppend(active, t.events, ActivationEvents(t.active, requests[1..]), t.active);
    if |requests| == 1 {
      assert ActivationEvents(t.active, requests[1..]) == [];
    } else {
      ActivationsAreBracketed(t.active, requests[1..]);
    }
  }

  /** Requesting the same mode again makes no call on any mode object. */
  lemma {:induction false} RepeatedRequestIsIdempotent(active: Option<GameMode>, request: RtsActiveGameMode)
    ensures ActivationEvents(active, [request, request]) == SetActive(active, ModeFor(request)).events
  {
    var t := SetActive(active, ModeFor(request));
    assert [request, request][1..] == [request];
    assert [request][1..] == [];
    assert ActivationEvents(t.active, [request]) == SetActive(t.active, ModeFor(request)).events + [];
  }

  /** Lower and upper bound of the camera zoom. */
  const MIN_ZOOM: real := 1.0
  const MAX_ZOOM: real := 50.0

  /** The camera zoom clamped to its range. */
  function ClampZoom(zoom: real): (r: real)
    ensures MIN_ZOOM <= r <= MAX_ZOOM
    ensures MIN_ZOOM <= zoom <= MAX_ZOOM ==> r == zoom
    ensures zoom < MIN_ZOOM ==> r == MIN_ZOOM
    ensures zoom > MAX_ZOOM ==> r == MAX_ZOOM
  {
    if zoom < MIN_ZOOM then MIN_ZOOM else if zoom > MAX_ZOOM then MAX_ZOOM else zoom
  }

  /** An object visited by the spatial query around the picked ground position. */
  datatype Candidate = Candidate(obj: ObjectId, hasSelectable: bool, distSqr: real, selectionRadius: real)

  /** The squared distance a pick starts from (1000 units). */
  const INITIAL_BEST_DIST_SQR: real := 1000.0 * 1000.0

  /** A candidate that can be picked: it has a selectable component and the ground
      position lies within its selection radius and closer than the initial bound. */
  predicate Qualifies(c: Candidate) {
    c.hasSelectable && c.distSqr < INITIAL_BEST_DIST_SQR && c.distSqr <= c.selectionRadius * c.selectionRadius
  }

  /** `candidates[k]` is the earliest qualifying candidate with the smallest squared distance. */
  predicate IsBestPick(candidates: seq<Candidate>, k: int)
  {
    0 <= k < |candidates| && Qualifies(candidates[k]) &&
    (forall j :: 0 <= j < |candidates| && Qualifies(candidates[j]) ==> candidates[k].distSqr <= candidates[j].distSqr) &&
    (forall j :: 0 <= j < k && Qualifies(candidates[j]) ==> candidates[k].distSqr < candidates[j].distSqr)
  }

  /** The unit under the cursor: no object when the ground plane is not hit or no
      candidate qualifies; otherwise the nearest qualifying candidate, the earliest
      visited one among equally near ones. */
  method PickSelectableObject(groundPlaneHit: bool, candidates: seq<Candidate>) returns (picked: Option<ObjectId>)
    ensures !groundPlaneHit ==> picked.None?
    ensures groundPlaneHit && picked.None? ==> forall j :: 0 <= j < |candidates| ==> !Qualifies(candidates[j])
    ensures picked.Some? ==>
      groundPlaneHit && exists k :: IsBestPick(candidates, k) && candidates[k].obj == picked.value
  {
    if !groundPlaneHit {
      return None;
    }
    var bestDistSqr := INITIAL_BEST_DIST_SQR;
    picked := None;
    ghost var bestIndex := -1;
    var i := 0;
    while i < |candidates|
      invariant 0 <= i <= |candidates|
      invariant bestIndex == -1 <==> picked.None?
      invariant bestIndex == -1 ==>
        bestDistSqr == INITIAL_BEST_DIST_SQR && forall j :: 0 <= j < i ==> !Qualifies(candidates[j])
      invariant bestIndex != -1 ==>
        IsBestPick(candidates[..i], bestIndex) && picked == Some(candidates[bestIndex].obj) &&
        bestDistSqr == candidates[bestIndex].distSqr
    {
      var c := candidates[i];
      if c.hasSelectable && c.distSqr < bestDistSqr && c.distSqr <= c.selectionRadius * c.selectionRadius {
        bestDistSqr := c.distSqr;
        picked := Some(c.obj);
        bestIndex := i;
      }
      i := i + 1;
    }
    if bestIndex != -1 {
      assert candidates[..|candidates|] == candidates;
    }
  }

  /** Colour of a unit's health bar. */
  datatype Colour = Red | Orange | Yellow | Lime

  /** The health bar: none when the unit has no maximum health; otherwise coloured by the
      fraction of health left (below 0.3 red, below 0.6 orange, below 0.8 yellow, else lime). */
  function HealthBarColour(curHealth: u32, maxHealth: u32): (c: Option<Colour>)
    ensures c.None? <==> maxHealth == 0
    ensures c == Some(Red) <==> maxHealth > 0 && (curHealth as real) < 0.3 * (maxHealth as real)
    ensures c == Some(Lime) <==> maxHealth > 0 && (curHealth as real) >= 0.8 * (maxHealth as real)
    ensures maxHealth > 0 && curHealth >= maxHealth ==> c == Some(Lime)
  {
    if maxHealth == 0 then None
    else
      var percentage := (curHealth as real) / (maxHealth as real);
      BelowFraction(curHealth as real, maxHealth as real, 0.3);
      BelowFraction(curHealth as real, maxHealth as real, 0.8);
      if percentage < 0.3 then Some(Red)
      else if percentage < 0.6 then Some(Orange)
      else if percentage < 0.8 then Some(Yellow)
      else Some(Lime)
  }

  /** A ratio is below a threshold exactly when the numerator is below the threshold's share of the denominator. */
  lemma BelowFraction(numerator: real, denominator: real, threshold: real)
    requires denominator > 0.0
    ensures numerator / denominator < threshold <==> numerator < threshold * denominator
  {
    var q := numerator / denominator;
    assert q * denominator == numerator;
    if q < threshold {
      assert q * denominator < threshold * denominator;
    } else {
      assert q * denominator >= threshold * denominator;
    }
  }

  /** The game state's own fields. */
  class GameState {
    var gameModeToSwitchTo: RtsActiveGameMode
    var activeGameMode: Option<GameMode>
    /** Calls made on the game-mode objects, oldest first. */
    var modeEvents: seq<ModeEvent>
    var cameraZoom: real
    var selectedUnits: seq<ObjectId>
    /** The selectable unit last found under the cursor. */
    var hoveredSelectable: Option<ObjectId>

    constructor ()
      ensures gameModeToSwitchTo == NoMode && activeGameMode.None? && modeEvents == []
      ensures selectedUnits == [] && hoveredSelectable.None?
    {
      hoveredSelectable := None;
      gameModeToSwitchTo := NoMode;
      activeGameMode := None;
      modeEvents := [];
      cameraZoom := 0.0;
      selectedUnits := [];
    }

    /** Activating the game state queues the level-editing mode. */
    method OnActivation()
      modifies this
      ensures hoveredSelectable == old(hoveredSelectable)
      ensures gameModeToSwitchTo == EditLevelMode
      ensures activeGameMode == old(activeGameMode) && modeEvents == old(modeEvents)
      ensures cameraZoom == old(cameraZoom) && selectedUnits == old(selectedUnits)
    {
      SwitchToGameMode(EditLevelMode);
    }

    /** Deactivating the game state deactivates the active mode. */
    method OnDeactivation()
      modifies this
      ensures hoveredSelectable == old(hoveredSelectable)
      ensures activeGameMode.None?
      ensures modeEvents == old(modeEvents) + SetActive(old(activeGameMode), None).events
      ensures gameModeToSwitchTo == old(gameModeToSwitchTo)
      ensures cameraZoom == old(cameraZoom) && selectedUnits == old(selectedUnits)
    {
      SetActiveGameMode(None);
    }

    /** A mode switch is only recorded; it takes effect at the next world update. */
    method SwitchToGameMode(mode: RtsActiveGameMode)
      modifies this
      ensures hoveredSelectable == old(hoveredSelectable)
      ensures gameModeToSwitchTo == mode
      ensures activeGameMode == old(activeGameMode) && modeEvents == old(modeEvents)
      ensures cameraZoom == old(cameraZoom) && selectedUnits == old(selectedUnits)
    {
      gameModeToSwitchTo := mode;
    }

    method SetActiveGameMode(mode: Option<GameMode>)
      modifies this
      ensures hoveredSelectable == old(hoveredSelectable)
      ensures activeGameMode == mode
      ensures modeEvents == old(modeEvents) + SetActive(old(activeGameMode), mode).events
      ensures gameModeToSwitchTo == old(gameModeToSwitchTo)
      ensures cameraZoom == old(cameraZoom) && selectedUnits == old(selectedUnits)
    {
      if activeGameMode == mode {
        return;
      }
      if activeGameMode.Some? {
        modeEvents := modeEvents + [Deactivate(activeGameMode.value)];
      }
      activeGameMode := mode;
      if activeGameMode.Some? {
        modeEvents := modeEvents + [Activate(activeGameMode.value)];
      }
    }

    method ActivateQueuedGameMode()
      modifies this
      ensures hoveredSelectable == old(hoveredSelectable)
      ensures activeGameMode == ModeFor(gameModeToSwitchTo)
      ensures modeEvents == old(modeEvents) + SetActive(old(activeGameMode), ModeFor(gameModeToSwitchTo)).events
      ensures gameModeToSwitchTo == old(gameModeToSwitchTo)
      ensures cameraZoom == old(cameraZoom) && selectedUnits == old(selectedUnits)
    {
      match gameModeToSwitchTo
      case NoMode => SetActiveGameMode(None);
      case MainMenuMode => SetActiveGameMode(Some(MainMenu));
      case BattleMode => SetActiveGameMode(Some(Battle));
      case EditLevelMode => SetActiveGameMode(Some(EditLevel));
    }

    /** The per-frame update: nothing while a scene loads in the background; otherwise the
        queued mode becomes active and dead units leave the selection (`alive` tells which
        handles still refer to live objects). */
    method BeforeWorldUpdate(loadingSceneInBackground: bool, alive: set<ObjectId>)
      modifies this
      ensures hoveredSelectable == old(hoveredSelectable)
      ensures loadingSceneInBackground ==>
        activeGameMode == old(activeGameMode) && modeEvents == old(modeEvents) && selectedUnits == old(selectedUnits)
      ensures !loadingSceneInBackground ==>
        activeGameMode == ModeFor(gameModeToSwitchTo) &&
        modeEvents == old(modeEvents) + SetActive(old(activeGameMode), ModeFor(gameModeToSwitchTo)).events &&
        selectedUnits == RemoveDead(old(selectedUnits), alive)
      ensures gameModeToSwitchTo == old(gameModeToSwitchTo) && cameraZoom == old(cameraZoom)
    {
      if loadingSceneInBackground {
        return;
      }
      ActivateQueuedGameMode();
      selectedUnits := RemoveDead(selectedUnits, alive);
    }

    method SetCameraZoom(zoom: real) returns (r: real)
      modifies this
      ensures hoveredSelectable == old(hoveredSelectable)
      ensures r == cameraZoom == ClampZoom(zoom)
      ensures gameModeToSwitchTo == old(gameModeToSwitchTo) && activeGameMode == old(activeGameMode)
      ensures modeEvents == old(modeEvents) && selectedUnits == old(selectedUnits)
    {
      cameraZoom := ClampZoom(zoom);
      r := cameraZoom;
    }

    /** A new main world starts with an empty selection. */
    method OnChangedMainWorld()
      modifies this
      ensures hoveredSelectable == old(hoveredSelectable)
      ensures selectedUnits == []
      ensures gameModeToSwitchTo == old(gameModeToSwitchTo) && activeGameMode == old(activeGameMode)
      ensures modeEvents == old(modeEvents) && cameraZoom == old(cameraZoom)
    {
      selectedUnits := [];
    }

    /** The unit under the cursor becomes the hovered one and is returned; with no unit
        there, nothing is hovered. */
    method DetectHoveredSelectable(groundPlaneHit: bool, candidates: seq<Candidate>) returns (hovered: Option<ObjectId>)
      modifies this`hoveredSelectable
      ensures hovered == PickSpec(groundPlaneHit, candidates) && hoveredSelectable == hovered
    {
      hoveredSelectable := None;
      var picked := PickSelectableObject(groundPlaneHit, candidates);
      PickIsUnique(groundPlaneHit, candidates, picked);
      if picked.Some? {
        hoveredSelectable := picked;
        return picked;
      }
      return None;
    }

    /** Clicking: no unit under the cursor clears the selection; with Ctrl held the unit
        is toggled; otherwise it becomes the only selected unit. */
    method SelectUnits(groundPlaneHit: bool, candidates: seq<Candidate>, ctrlDown: bool)
      modifies this
      ensures hoveredSelectable == old(hoveredSelectable)
      ensures var pick := PickSpec(groundPlaneHit, candidates);
        (pick.None? ==> selectedUnits == []) &&
        (pick.Some? && ctrlDown ==> selectedUnits == Toggle(old(selectedUnits), pick.value)) &&
        (pick.Some? && !ctrlDown ==> selectedUnits == [pick.value])
      ensures gameModeToSwitchTo == old(gameModeToSwitchTo) && activeGameMode == old(activeGameMode)
      ensures modeEvents == old(modeEvents) && cameraZoom == old(cameraZoom)
    {
      var picked := PickSelectableObject(groundPlaneHit, candidates);
      PickIsUnique(groundPlaneHit, candidates, picked);
      if picked.Some? {
        if ctrlDown {
          selectedUnits := Toggle(selectedUnits, picked.value);
        } else {
          selectedUnits := [];
          selectedUnits := selectedUnits + [picked.value];
        }
      } else {
        selectedUnits := [];
      }
    }
  }

  /** The selection without the units whose objects are gone, order kept. */
  function RemoveDead(units: seq<ObjectId>, alive: set<ObjectId>): (r: seq<ObjectId>)
    ensures forall u :: u in r <==> u in units && u in alive
    ensures |r| <= |units|
  {
    if units == [] then []
    else if units[0] in alive then [units[0]] + RemoveDead(units[1..], alive)
    else RemoveDead(units[1..], alive)
  }

  /** A single unit stays exactly when its object is still alive. */
  lemma RemoveDeadSingle(u: ObjectId, alive: set<ObjectId>)
    ensures RemoveDead([u], alive) == if u in alive then [u] else []
  {
    assert [u][1..] == [];
  }

  /** Dead units are removed one by one: the pruned selection keeps the survivors in their
      order, with their repetitions, whichever way the selection is split. */
  lemma {:induction false} RemoveDeadAppend(a: seq<ObjectId>, b: seq<ObjectId>, alive: set<ObjectId>)
    ensures RemoveDead(a + b, alive) == RemoveDead(a, alive) + RemoveDead(b, alive)
    decreases |a|
  {
    if a == [] {
      assert a + b == b;
    } else {
      assert (a + b)[0] == a[0];
      assert (a + b)[1..] == a[1..] + b;
      RemoveDeadAppend(a[1..], b, alive);
    }
  }

  /** The picking rule as a function of its inputs. */
  ghost function PickSpec(groundPlaneHit: bool, candidates: seq<Candidate>): Option<ObjectId>
  {
    if groundPlaneHit && exists k :: IsBestPick(candidates, k) then
      var k :| IsBestPick(candidates, k); Some(candidates[k].obj)
    else None
  }

  /** There is at most one best pick, so the pick is determined by the inputs. */
  lemma BestPickUnique(candidates: seq<Candidate>, k1: int, k2: int)
    requires IsBestPick(candidates, k1) && IsBestPick(candidates, k2)
    ensures k1 == k2
  {
  }

  /** Whenever some candidate qualifies there is a best pick. */
  lemma {:induction false} BestPickExists(candidates: seq<Candidate>, j: int)
    requires 0 <= j < |candidates| && Qualifies(candidates[j])
    ensures exists k :: IsBestPick(candidates, k)
    decreases |candidates|
  {
    var last := |candidates| - 1;
    var init := candidates[..last];
    if j < last {
      BestPickExists(init, j);
      var k :| IsBestPick(init, k);
      if Qualifies(candidates[last]) && candidates[last].distSqr < candidates[k].distSqr {
        assert IsBestPick(candidates, last);
      } else {
        assert IsBestPick(candidates, k);
      }
    } else if exists i :: 0 <= i < last && Qualifies(candidates[i]) {
      var i :| 0 <= i < last && Qualifies(candidates[i]);
      BestPickExists(init, i);
      var k :| IsBestPick(init, k);
      if candidates[last].distSqr < candidates[k].distSqr {
        assert IsBestPick(candidates, last);
      } else {
        assert IsBestPick(candidates, k);
      }
    } else {
      assert IsBestPick(candidates, last);
    }
  }

  /** The method's result is the picking rule's result. */
  lemma PickIsUnique(groundPlaneHit: bool, candidates: seq<Candidate>, picked: Option<ObjectId>)
    requires !groundPlaneHit ==> picked.None?
    requires groundPlaneHit && picked.None? ==> forall j :: 0 <= j < |candidates| ==> !Qualifies(candidates[j])
    requires picked.Some? ==>
      groundPlaneHit && exists k :: IsBestPick(candidates, k) && candidates[k].obj == picked.value
    ensures picked == PickSpec(groundPlaneHit, candidates)
  {
    if picked.Some? {
      var k :| IsBestPick(candidates, k) && candidates[k].obj == picked.value;
      var k' :| IsBestPick(candidates, k');
      BestPickUnique(candidates, k, k');
    } else {
      forall k | IsBestPick(candidates, k)
        ensures !groundPlaneHit
      {
        assert Qualifies(candidates[k]);
      }
    }
  }
}
