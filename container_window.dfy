/**
  The editor's main container window: the registry of document windows (each wrapped in a
  dock widget whose object name is the window's unique name), the application panels, the
  set of dock names that must stay unique, the counter that defers restoring the window
  layout, the choice of the dock that a closed document dock is re-attached to, and the
  guard against re-entering the close handler.

  Windows and panels are identified by handles; the dock manager, Qt widgets and the
  saved settings are outside the model.
*/
module ContainerWindow {
  import opened Common

  type WindowId = nat
  type PanelId = nat
  type DocumentId = nat

  /** A dock widget created for a document window: its identity, the window it shows and
      its object name. */
  datatype Dock = Dock(id: nat, widget: WindowId, objectName: string)

  /** Removing the same index from two aligned lists keeps them aligned. */
  lemma {:induction false} RemoveAtAndSwapKeepsAlignment(windows: seq<WindowId>, docks: seq<Dock>, i: nat)
    requires |windows| == |docks| && i < |windows|
    requires forall j :: 0 <= j < |docks| ==> docks[j].widget == windows[j]
    ensures var w := RemoveAtAndSwap(windows, i); var d := RemoveAtAndSwap(docks, i);
      |w| == |d| && forall j :: 0 <= j < |d| ==> d[j].widget == w[j]
  {
    var w := RemoveAtAndSwap(windows, i);
    var d := RemoveAtAndSwap(docks, i);
    forall j | 0 <= j < |d|
      ensures d[j].widget == w[j]
    {
      if j == i {
        assert d[j] == docks[|docks| - 1] && w[j] == windows[|windows| - 1];
      }
    }
  }

  /** What a restore attempt does with the schedule counter: it decrements it and only
      does its work when the counter is no longer positive. */
  function Restores(counter: int, count: nat): (runs: seq<bool>)
    ensures |runs| == count
    decreases count
  {
    if count == 0 then [] else [counter - 1 <= 0] + Restores(counter - 1, count - 1)
  }

  /** When the restore was scheduled `count` times (from a counter of 0) and the timer fires
      once per scheduling, only the last restore does the work. */
  lemma {:induction false} OnlyLastRestoreRuns(count: nat, counter: int)
    requires count >= 1 && counter == count
    ensures forall j :: 0 <= j < count ==> (Restores(counter, count)[j] <==> j == count - 1)
  {
    RestoresFrom(counter, count);
  }

  lemma {:induction false} RestoresFrom(counter: int, count: nat)
    requires count >= 1 && counter >= count
    ensures forall j :: 0 <= j < count - 1 ==> !Restores(counter, count)[j]
    ensures Restores(counter, count)[count - 1] <==> counter == count
  {
    if count > 1 {
      RestoresFrom(counter - 1, count - 1);
      assert Restores(counter, count) == [counter - 1 <= 0] + Restores(counter - 1, count - 1);
    }
  }

  /** Name of the settings tab, the preferred dock to re-attach a closed dock to. */
  const SETTINGS_NAME: string := "Settings"

  /** The registry's invariant: windows and their docks are aligned index by index, each
      window is registered once, docks are distinct with non-empty names that are known to
      the name set, and no two registered docks or panels share a name. */
  predicate RegistryValid(windows: seq<WindowId>, docks: seq<Dock>, names: set<string>, nextId: nat,
                          panels: seq<PanelId>, panelNames: map<PanelId, string>)
  {
    |windows| == |docks| &&
    NoDuplicates(windows) &&
    (forall i :: 0 <= i < |docks| ==> docks[i].widget == windows[i]) &&
    (forall i :: 0 <= i < |docks| ==> docks[i].id < nextId) &&
    (forall i, j :: 0 <= i < j < |docks| ==> docks[i].id != docks[j].id && docks[i].objectName != docks[j].objectName) &&
    (forall i :: 0 <= i < |docks| ==> docks[i].objectName != "" && docks[i].objectName in names) &&
    NoDuplicates(panels) &&
    (forall p :: p in panels ==> p in panelNames && panelNames[p] in names) &&
    (forall p, i :: p in panels && 0 <= i < |docks| ==> panelNames[p] != docks[i].objectName) &&
    (forall p, q :: p in panels && q in panels && p != q ==> panelNames[p] != panelNames[q])
  }

  /** Removing a document window (its window, its dock at the same index and its dock's
      name) keeps the registry valid. */
  lemma {:induction false} RemoveWindowKeepsValid(windows: seq<WindowId>, docks: seq<Dock>, names: set<string>, nextId: nat,
                                                  panels: seq<PanelId>, panelNames: map<PanelId, string>, i: nat)
    requires RegistryValid(windows, docks, names, nextId, panels, panelNames) && i < |windows|
    ensures RegistryValid(RemoveAtAndSwap(windows, i), RemoveAtAndSwap(docks, i), names - {docks[i].objectName},
                          nextId, panels, panelNames)
    ensures windows[i] !in RemoveAtAndSwap(windows, i)
  {
    var w := RemoveAtAndSwap(windows, i);
    var d := RemoveAtAndSwap(docks, i);
    var gone := docks[i].objectName;
    RemoveAtAndSwapKeepsAlignment(windows, docks, i);
    SwapRemovePreservesDistinct(windows, i);
    forall a, b | 0 <= a < b < |d|
      ensures d[a].id != d[b].id && d[a].objectName != d[b].objectName
    {
      var sa := if a == i then |docks| - 1 else a;
      var sb := if b == i then |docks| - 1 else b;
      assert d[a] == docks[sa] && d[b] == docks[sb] && sa != sb;
      if sa < sb {
        assert docks[sa].id != docks[sb].id && docks[sa].objectName != docks[sb].objectName;
      } else {
        assert docks[sb].id != docks[sa].id && docks[sb].objectName != docks[sa].objectName;
      }
    }
    forall a | 0 <= a < |d|
      ensures d[a].id < nextId && d[a].objectName != "" && d[a].objectName in names - {gone}
      ensures forall p :: p in panels ==> panelNames[p] != d[a].objectName
    {
      var sa := if a == i then |docks| - 1 else a;
      assert d[a] == docks[sa] && sa != i;
      if sa < i {
        assert docks[sa].objectName != docks[i].objectName;
      } else {
        assert docks[i].objectName != docks[sa].objectName;
      }
    }
    forall p | p in panels
      ensures panelNames[p] in names - {gone}
    {
      assert panelNames[p] != docks[i].objectName;
    }
    forall a | 0 <= a < |w|
      ensures w[a] != windows[i]
    {
      var sa := if a == i then |windows| - 1 else a;
      assert w[a] == windows[sa] && sa != i;
    }
  }

  /** Removing an application panel keeps the registry valid. */
  lemma {:induction false} RemovePanelKeepsValid(windows: seq<WindowId>, docks: seq<Dock>, names: set<string>, nextId: nat,
                                                 panels: seq<PanelId>, panelNames: map<PanelId, string>, i: nat)
    requires RegistryValid(windows, docks, names, nextId, panels, panelNames) && i < |panels|
    ensures RegistryValid(windows, docks, names, nextId, RemoveAtAndSwap(panels, i), panelNames)
    ensures panels[i] !in RemoveAtAndSwap(panels, i)
  {
    var r := RemoveAtAndSwap(panels, i);
    SwapRemovePreservesDistinct(panels, i);
    forall a | 0 <= a < |r|
      ensures r[a] in panels && r[a] != panels[i]
    {
      var sa := if a == i then |panels| - 1 else a;
      assert r[a] == panels[sa] && sa != i;
    }
  }

  /** What the close handler did. */
  datatype CloseOutcome =
    | AlreadyClosing                       // re-entered while a close is in progress
    | Refused                              // the project cannot be closed; the event is rejected
    | Accepted(shutDown: seq<WindowId>)    // every document window was shut down, in this order

  class ContainerWindowState {
    var documentWindows: seq<WindowId>
    var documentDocks: seq<Dock>
    var dockNames: set<string>
    var applicationPanels: seq<PanelId>
    /** The object name each registered panel had when it was added. */
    var panelNames: map<PanelId, string>
    var windowLayoutRestoreScheduled: int
    var windowLayoutRestored: bool
    /** Set while the close handler runs (shared by all container windows). */
    var forceClose: bool
    /** Identity for the next dock widget. */
    var nextDockId: nat

    /** The registry's invariant over the fields. */
    predicate Valid()
      reads this
    {
      RegistryValid(documentWindows, documentDocks, dockNames, nextDockId, applicationPanels, panelNames)
    }

    /** Names of the registered docks. */
    function DockNamesInUse(): (names: set<string>)
      reads this
      requires Valid()
      ensures names <= dockNames
    {
      set i | 0 <= i < |documentDocks| :: documentDocks[i].objectName
    }

    constructor ()
      ensures Valid()
      ensures documentWindows == [] && documentDocks == [] && dockNames == {} && applicationPanels == []
      ensures windowLayoutRestoreScheduled == 0 && !windowLayoutRestored && !forceClose
    {
      documentWindows := [];
      documentDocks := [];
      dockNames := {};
      applicationPanels := [];
      panelNames := map[];
      windowLayoutRestoreScheduled := 0;
      windowLayoutRestored := false;
      forceClose := false;
      nextDockId := 0;
    }

    /** Registers a document window: a new dock named after the window's unique name is
        appended at the window's index and the name joins the unique-name set. A window that
        is already registered is left alone. */
    method AddDocumentWindow(window: WindowId, uniqueName: string)
      requires Valid()
      requires window !in documentWindows ==> uniqueName != "" && uniqueName !in dockNames
      modifies this
      ensures Valid()
      ensures window in old(documentWindows) ==>
        documentWindows == old(documentWindows) && documentDocks == old(documentDocks) && dockNames == old(dockNames)
      ensures window !in old(documentWindows) ==>
        documentWindows == old(documentWindows) + [window] &&
        documentDocks == old(documentDocks) + [Dock(old(nextDockId), window, uniqueName)] &&
        dockNames == old(dockNames) + {uniqueName}
      ensures applicationPanels == old(applicationPanels) && panelNames == old(panelNames)
      ensures windowLayoutRestoreScheduled == old(windowLayoutRestoreScheduled) && forceClose == old(forceClose)
      ensures windowLayoutRestored == old(windowLayoutRestored)
    {
      if window in documentWindows {
        return;
      }
      var dock := Dock(nextDockId, window, uniqueName);
      documentWindows := documentWindows + [window];
      dockNames := dockNames + {uniqueName};
      documentDocks := documentDocks + [dock];
      nextDockId := nextDockId + 1;
    }

    /** The dock that refreshing the decoration of `window` updates; none when the window is
        not registered. */
    function UpdateWindowDecoration(window: WindowId): (dock: Option<Dock>)
      reads this
      requires Valid()
      ensures dock.None? <==> window !in documentWindows
      ensures dock.Some? ==> dock.value in documentDocks && dock.value.widget == window
    {
      match IndexOf(documentWindows, window)
      case None => None
      case Some(i) => Some(documentDocks[i])
    }

    /** The decoration loop after a removal as written: every iteration passes the removed
        window instead of the loop's window. */
    method RefreshDecorationsAsWritten(removed: WindowId) returns (refreshed: seq<Dock>)
      requires Valid() && removed !in documentWindows
      ensures refreshed == []
    {
      refreshed := [];
      var i := 0;
      while i < |documentWindows|
        invariant 0 <= i <= |documentWindows|
        invariant refreshed == []
      {
        match UpdateWindowDecoration(removed) {
          case Some(dock) => refreshed := refreshed + [dock];
          case None =>
        }
        i := i + 1;
      }
    }

    /** The decoration loop as intended: every remaining window's dock is refreshed. */
    method RefreshDecorations() returns (refreshed: seq<Dock>)
      requires Valid()
      ensures refreshed == documentDocks
    {
      refreshed := [];
      var i := 0;
      while i < |documentWindows|
        invariant 0 <= i <= |documentWindows|
        invariant refreshed == documentDocks[..i]
      {
        IndexOfDistinct(documentWindows, i);
        var dock := UpdateWindowDecoration(documentWindows[i]);
        if dock.Some? {
          refreshed := refreshed + [dock.value];
        }
        i := i + 1;
      }
    }

    /** Unregisters a document window: window and dock are swap-removed at the same index and
        the dock's name leaves the name set. When the dock's area is left with one open dock,
        the decoration of every remaining window is refreshed (`refreshed`). Unknown windows
        are ignored. */
    method RemoveDocumentWindow(window: WindowId, singleOpenDockLeft: bool) returns (refreshed: seq<Dock>)
      requires Valid()
      modifies this
      ensures Valid()
      ensures window !in old(documentWindows) ==>
        documentWindows == old(documentWindows) && documentDocks == old(documentDocks) &&
        dockNames == old(dockNames) && refreshed == []
      ensures window in old(documentWindows) ==>
        var i := IndexOf(old(documentWindows), window).value;
        documentWindows == RemoveAtAndSwap(old(documentWindows), i) &&
        documentDocks == RemoveAtAndSwap(old(documentDocks), i) &&
        dockNames == old(dockNames) - {old(documentDocks)[i].objectName} &&
        window !in documentWindows &&
        refreshed == (if singleOpenDockLeft then documentDocks else [])
      ensures applicationPanels == old(applicationPanels) && panelNames == old(panelNames)
      ensures nextDockId == old(nextDockId)
      ensures windowLayoutRestoreScheduled == old(windowLayoutRestoreScheduled) && forceClose == old(forceClose)
      ensures windowLayoutRestored == old(windowLayoutRestored)
    {
      refreshed := [];
      var index := IndexOf(documentWindows, window);
      if index.None? {
        return;
      }
      var i := index.value;
      var dock := documentDocks[i];
      RemoveWindowKeepsValid(documentWindows, documentDocks, dockNames, nextDockId, applicationPanels, panelNames, i);
      documentWindows, documentDocks, dockNames :=
        RemoveAtAndSwap(documentWindows, i), RemoveAtAndSwap(documentDocks, i), dockNames - {dock.objectName};
      if singleOpenDockLeft {
        refreshed := RefreshDecorations();
      }
    }

    /** A renamed window's dock takes the new unique name, which replaces the old one in the
        name set. Unknown windows are ignored. */
    method DocumentWindowRenamed(window: WindowId, newName: string)
      requires Valid()
      requires window in documentWindows ==>
        newName != "" && newName !in dockNames - {documentDocks[IndexOf(documentWindows, window).value].objectName}
      modifies this
      ensures Valid()
      ensures window !in old(documentWindows) ==> documentDocks == old(documentDocks) && dockNames == old(dockNames)
      ensures window in old(documentWindows) ==>
        var i := IndexOf(old(documentWindows), window).value;
        documentDocks == old(documentDocks)[i := old(documentDocks)[i].(objectName := newName)] &&
        dockNames == old(dockNames) - {old(documentDocks)[i].objectName} + {newName}
      ensures documentWindows == old(documentWindows)
      ensures applicationPanels == old(applicationPanels) && panelNames == old(panelNames)
      ensures windowLayoutRestoreScheduled == old(windowLayoutRestoreScheduled) && forceClose == old(forceClose)
      ensures windowLayoutRestored == old(windowLayoutRestored)
    {
      var index := IndexOf(documentWindows, window);
      if index.None? {
        return;
      }
      var i := index.value;
      var dock := documentDocks[i];
      documentDocks, dockNames :=
        documentDocks[i := dock.(objectName := newName)], dockNames - {dock.objectName} + {newName};
    }

    /** Registers an application panel under its object name; a registered panel is left alone. */
    method AddApplicationPanel(panel: PanelId, objectName: string)
      requires Valid()
      requires panel !in applicationPanels ==> objectName != "" && objectName !in dockNames
      modifies this
      ensures Valid()
      ensures panel in old(applicationPanels) ==>
        applicationPanels == old(applicationPanels) && panelNames == old(panelNames) && dockNames == old(dockNames)
      ensures panel !in old(applicationPanels) ==>
        applicationPanels == old(applicationPanels) + [panel] &&
        panelNames == old(panelNames)[panel := objectName] && dockNames == old(dockNames) + {objectName}
      ensures documentWindows == old(documentWindows) && documentDocks == old(documentDocks)
      ensures windowLayoutRestoreScheduled == old(windowLayoutRestoreScheduled) && forceClose == old(forceClose)
      ensures windowLayoutRestored == old(windowLayoutRestored)
    {
      if panel in applicationPanels {
        return;
      }
      dockNames := dockNames + {objectName};
      applicationPanels := applicationPanels + [panel];
      panelNames := panelNames[panel := objectName];
    }

    /** Unregisters an application panel by swap-removal. Its name stays in the name set. */
    method RemoveApplicationPanel(panel: PanelId)
      requires Valid()
      modifies this
      ensures Valid()
      ensures panel !in old(applicationPanels) ==> applicationPanels == old(applicationPanels)
      ensures panel in old(applicationPanels) ==>
        applicationPanels == RemoveAtAndSwap(old(applicationPanels), IndexOf(old(applicationPanels), panel).value) &&
        panel !in applicationPanels
      ensures dockNames == old(dockNames) && panelNames == old(panelNames)
      ensures documentWindows == old(documentWindows) && documentDocks == old(documentDocks)
      ensures windowLayoutRestoreScheduled == old(windowLayoutRestoreScheduled) && forceClose == old(forceClose)
      ensures windowLayoutRestored == old(windowLayoutRestored)
    {
      var index := IndexOf(applicationPanels, panel);
      if index.None? {
        return;
      }
      RemovePanelKeepsValid(documentWindows, documentDocks, dockNames, nextDockId, applicationPanels, panelNames, index.value);
      applicationPanels := RemoveAtAndSwap(applicationPanels, index.value);
    }

    /** Showing a document window: fails for an unregistered window, otherwise the window's
        dock is toggled into view. */
    method EnsureVisible(window: WindowId) returns (success: bool, shown: Option<Dock>)
      requires Valid()
      ensures success <==> window in documentWindows
      ensures success ==> shown.Some? && shown.value in documentDocks && shown.value.widget == window
      ensures !success ==> shown.None?
    {
      shown := UpdateWindowDecoration(window);
      success := shown.Some?;
    }

    /** Showing a document: the first registered window that shows it is made visible; fails
        when no registered window shows it (`documentOf` says which document a window shows). */
    method EnsureVisibleDocument(document: DocumentId, documentOf: WindowId -> DocumentId)
      returns (success: bool, shown: Option<Dock>)
      requires Valid()
      ensures success <==> exists i :: 0 <= i < |documentWindows| && documentOf(documentWindows[i]) == document
      ensures success ==>
        exists i :: 0 <= i < |documentWindows| && documentOf(documentWindows[i]) == document &&
          (forall j :: 0 <= j < i ==> documentOf(documentWindows[j]) != document) &&
          shown == Some(documentDocks[i])
      ensures !success ==> shown.None?
    {
      var i := 0;
      while i < |documentWindows|
        invariant 0 <= i <= |documentWindows|
        invariant forall j :: 0 <= j < i ==> documentOf(documentWindows[j]) != document
      {
        if documentOf(documentWindows[i]) == document {
          IndexOfDistinct(documentWindows, i);
          success, shown := EnsureVisible(documentWindows[i]);
          return;
        }
        i := i + 1;
      }
      return false, None;
    }

    /** Showing an application panel: fails for an unregistered panel; a closed panel is
        toggled open (`toggled`) before it is raised. */
    method EnsureVisiblePanel(panel: PanelId, isClosed: bool) returns (success: bool, toggled: bool)
      requires Valid()
      ensures success <==> panel in applicationPanels
      ensures toggled <==> success && isClosed
    {
      if panel !in applicationPanels {
        return false, false;
      }
      return true, isClosed;
    }

    method ScheduleRestoreWindowLayout()
      modifies this
      ensures windowLayoutRestoreScheduled == old(windowLayoutRestoreScheduled) + 1
      ensures documentWindows == old(documentWindows) && documentDocks == old(documentDocks)
      ensures dockNames == old(dockNames) && applicationPanels == old(applicationPanels)
      ensures panelNames == old(panelNames) && nextDockId == old(nextDockId)
      ensures forceClose == old(forceClose) && windowLayoutRestored == old(windowLayoutRestored)
    {
      windowLayoutRestoreScheduled := windowLayoutRestoreScheduled + 1;
    }

    /** A deferred restore: only the restore that brings the counter back to zero (or below)
        goes on (`ran`). It then looks for the project's or the application's layout file
        (`layoutFound`); without one it stops there, otherwise the layout counts as restored. */
    method RestoreWindowLayout(layoutFound: bool) returns (ran: bool)
      modifies this
      ensures windowLayoutRestoreScheduled == old(windowLayoutRestoreScheduled) - 1
      ensures ran == Restores(old(windowLayoutRestoreScheduled), 1)[0]
      ensures windowLayoutRestored == if ran && layoutFound then true else old(windowLayoutRestored)
      ensures documentWindows == old(documentWindows) && documentDocks == old(documentDocks)
      ensures dockNames == old(dockNames) && applicationPanels == old(applicationPanels)
      ensures panelNames == old(panelNames) && nextDockId == old(nextDockId)
      ensures forceClose == old(forceClose)
    {
      windowLayoutRestoreScheduled := windowLayoutRestoreScheduled - 1;
      if windowLayoutRestoreScheduled > 0 {
        return false;
      }
      if !layoutFound {
        return true;
      }
      windowLayoutRestored := true;
      return true;
    }

    /** The dock a closed document dock without a container is re-attached to: the first
        window named "Settings", else the last dock other than `dock`, else the first. */
    method RepairTargetIndex(dock: Dock) returns (best: nat)
      requires Valid() && |documentDocks| >= 2
      ensures best < |documentDocks|
      ensures (exists i :: 0 <= i < |documentDocks| && documentDocks[i].objectName == SETTINGS_NAME) ==>
        documentDocks[best].objectName == SETTINGS_NAME &&
        forall j :: 0 <= j < best ==> documentDocks[j].objectName != SETTINGS_NAME
      ensures (forall i :: 0 <= i < |documentDocks| ==> documentDocks[i].objectName != SETTINGS_NAME) ==>
        (documentDocks[best] != dock || best == 0) &&
        forall j :: best < j < |documentDocks| ==> documentDocks[j] == dock
      ensures ((forall i :: 0 <= i < |documentDocks| ==> documentDocks[i].objectName != SETTINGS_NAME) &&
               (forall j :: 0 <= j < |documentDocks| ==> documentDocks[j] == dock)) ==> best == 0
    {
      best := 0;
      var i := 0;
      while i < |documentDocks|
        invariant 0 <= i <= |documentDocks| && best < |documentDocks|
        invariant forall j :: 0 <= j < i ==> documentDocks[j].objectName != SETTINGS_NAME
        invariant best == 0 || documentDocks[best] != dock
        invariant best <= i && forall j :: best < j < i ==> documentDocks[j] == dock
        invariant i > 0 && documentDocks[0] != dock ==> documentDocks[best] != dock
      {
        if documentDocks[i].objectName == SETTINGS_NAME {
          return i;
        } else if documentDocks[i] != dock {
          best := i;
        }
        i := i + 1;
      }
    }

    /** Closing the main window: a nested close while one is in progress returns at once;
        otherwise the project is asked whether it can close (refusing rejects the event) and
        then every document window present at the start is shut down, in order. A window
        that shuts down reports that it is closing, and the container unregisters it, so an
        accepted close leaves no document window, no document dock and none of their dock
        names. `singleOpenDockLeft[k]` tells whether the dock area of the `k`-th window is left
        with one open dock when that window goes (false past the end). The in-progress flag
        is reset on every exit. */
    method CloseEvent(canCloseProject: bool, singleOpenDockLeft: seq<bool>) returns (outcome: CloseOutcome)
      requires Valid()
      modifies this
      ensures Valid()
      ensures old(forceClose) ==> outcome == AlreadyClosing
      ensures !old(forceClose) && !canCloseProject ==> outcome == Refused
      ensures old(forceClose) || !canCloseProject ==>
        documentWindows == old(documentWindows) && documentDocks == old(documentDocks) && dockNames == old(dockNames)
      ensures !old(forceClose) && canCloseProject ==>
        && outcome == Accepted(old(documentWindows))
        && documentWindows == [] && documentDocks == []
        && dockNames == old(dockNames) - NamesOf(old(documentDocks))
      ensures forceClose == old(forceClose)
      ensures applicationPanels == old(applicationPanels)
      ensures panelNames == old(panelNames) && nextDockId == old(nextDockId)
      ensures windowLayoutRestoreScheduled == old(windowLayoutRestoreScheduled)
      ensures windowLayoutRestored == old(windowLayoutRestored)
    {
      if forceClose {
        return AlreadyClosing;
      }
      forceClose := true;
      if !canCloseProject {
        forceClose := false;
        return Refused;
      }
      var shutDown := ShutdownDocumentWindows(singleOpenDockLeft);
      forceClose := false;
      return Accepted(shutDown);
    }

    /** Shuts down every registered document window in order; each one reports that it is
        closing and is unregistered. */
    method ShutdownDocumentWindows(singleOpenDockLeft: seq<bool>) returns (shutDown: seq<WindowId>)
      requires Valid()
      modifies this
      ensures Valid()
      ensures shutDown == old(documentWindows)
      ensures documentWindows == [] && documentDocks == []
      ensures dockNames == old(dockNames) - NamesOf(old(documentDocks))
      ensures forceClose == old(forceClose)
      ensures applicationPanels == old(applicationPanels)
      ensures panelNames == old(panelNames) && nextDockId == old(nextDockId)
      ensures windowLayoutRestoreScheduled == old(windowLayoutRestoreScheduled)
      ensures windowLayoutRestored == old(windowLayoutRestored)
    {
      var windows := documentWindows;
      var docks := documentDocks;
      var names := dockNames;
      assert windows[0..] == windows && docks[0..] == docks && docks[..0] == [];
      shutDown := [];
      var i := 0;
      while i < |windows|
        invariant 0 <= i <= |windows| == |docks|
        invariant NoDuplicates(windows) && forall j :: 0 <= j < |docks| ==> docks[j].widget == windows[j]
        invariant ShutdownProgress(windows, docks, names, i)
        invariant shutDown == windows[..i]
        invariant forceClose == old(forceClose)
        invariant applicationPanels == old(applicationPanels) && panelNames == old(panelNames)
        invariant nextDockId == old(nextDockId)
        invariant windowLayoutRestoreScheduled == old(windowLayoutRestoreScheduled)
        invariant windowLayoutRestored == old(windowLayoutRestored)
      {
        ShutdownNext(windows, docks, names, i, i < |singleOpenDockLeft| && singleOpenDockLeft[i]);
        shutDown := shutDown + [windows[i]];
        i := i + 1;
      }
      assert windows[..|windows|] == windows && docks[..|docks|] == docks;
      assert |documentWindows| == 0 by {
        assert |multiset(documentWindows)| == 0;
      }
    }

    /** The registry while the windows of `windows` are shut down in order: valid, holding
        the windows and docks not yet shut down, and without the names of those that were. */
    ghost predicate ShutdownProgress(windows: seq<WindowId>, docks: seq<Dock>, names: set<string>, i: nat)
      reads this
    {
      && i <= |windows| && i <= |docks|
      && Valid()
      && multiset(documentWindows) == multiset(windows[i..])
      && multiset(documentDocks) == multiset(docks[i..])
      && dockNames == names - NamesOf(docks[..i])
    }

    /** Shuts down the `i`-th window of the snapshot: it reports that it is closing and is
        unregistered. */
    method ShutdownNext(windows: seq<WindowId>, docks: seq<Dock>, names: set<string>, i: nat, singleOpenDockLeft: bool)
      requires i < |windows| == |docks|
      requires NoDuplicates(windows) && forall j :: 0 <= j < |docks| ==> docks[j].widget == windows[j]
      requires ShutdownProgress(windows, docks, names, i)
      modifies this
      ensures ShutdownProgress(windows, docks, names, i + 1)
      ensures forceClose == old(forceClose)
      ensures applicationPanels == old(applicationPanels) && panelNames == old(panelNames)
      ensures nextDockId == old(nextDockId)
      ensures windowLayoutRestoreScheduled == old(windowLayoutRestoreScheduled)
      ensures windowLayoutRestored == old(windowLayoutRestored)
    {
      ShutdownStep(windows, docks, documentWindows, documentDocks, i);
      NamesOfNext(docks, i);
      var _ := RemoveDocumentWindow(windows[i], singleOpenDockLeft);
    }
  }

  /** One step of the shutdown loop: the next window to shut down is still registered,
      and its dock is the one registered for it. */
  lemma ShutdownStep(windows: seq<WindowId>, docks: seq<Dock>, current: seq<WindowId>, currentDocks: seq<Dock>, i: nat)
    requires i < |windows| == |docks| && NoDuplicates(windows)
    requires forall j :: 0 <= j < |docks| ==> docks[j].widget == windows[j]
    requires |current| == |currentDocks| && forall j :: 0 <= j < |currentDocks| ==> currentDocks[j].widget == current[j]
    requires multiset(current) == multiset(windows[i..]) && multiset(currentDocks) == multiset(docks[i..])
    ensures windows[i] in current
    ensures currentDocks[IndexOf(current, windows[i]).value] == docks[i]
    ensures multiset(RemoveAtAndSwap(current, IndexOf(current, windows[i]).value)) == multiset(windows[i + 1..])
    ensures multiset(RemoveAtAndSwap(currentDocks, IndexOf(current, windows[i]).value)) == multiset(docks[i + 1..])
  {
    MultisetFirst(windows, i);
    MultisetFirst(docks, i);
    assert windows[i] in current by {
      assert windows[i] in multiset(current);
    }
    var k := IndexOf(current, windows[i]).value;
    var d := currentDocks[k];
    assert d.widget == windows[i];
    assert d in docks[i..] by {
      assert d in multiset(currentDocks);
    }
    var m :| i <= m < |docks| && docks[m] == d by {
      var n :| 0 <= n < |docks[i..]| && docks[i..][n] == d;
      assert docks[i + n] == d;
    }
    assert windows[m] == windows[i];
    RemoveNextMultiset(current, windows, i, k);
    RemoveNextMultiset(currentDocks, docks, i, k);
  }

  /** Swap-removing from `current` the element `s[i]` it holds, when `current` holds the
      elements of `s[i..]`, leaves the elements of `s[i + 1..]`. */
  lemma RemoveNextMultiset<T>(current: seq<T>, s: seq<T>, i: nat, k: nat)
    requires i < |s| && k < |current| && current[k] == s[i]
    requires multiset(current) == multiset(s[i..])
    ensures multiset(RemoveAtAndSwap(current, k)) == multiset(s[i + 1..])
  {
    MultisetFirst(s, i);
  }

  /** The object names of some docks. */
  function NamesOf(docks: seq<Dock>): set<string> {
    set d | d in docks :: d.objectName
  }

  lemma NamesOfNext(docks: seq<Dock>, i: nat)
    requires i < |docks|
    ensures NamesOf(docks[..i + 1]) == NamesOf(docks[..i]) + {docks[i].objectName}
  {
    assert docks[..i + 1] == docks[..i] + [docks[i]];
  }

  /** The multiset of a suffix is its first element and the rest. */
  lemma MultisetFirst<T>(s: seq<T>, i: nat)
    requires i < |s|
    ensures multiset(s[i..]) == multiset{s[i]} + multiset(s[i + 1..])
  {
    assert s[i..] == [s[i]] + s[i + 1..];
  }

  /** Swap-removal keeps a list free of duplicates. */
  lemma SwapRemovePreservesDistinct<T>(s: seq<T>, i: nat)
    requires i < |s|
    requires forall a, b :: 0 <= a < b < |s| ==> s[a] != s[b]
    ensures var r := RemoveAtAndSwap(s, i); forall a, b :: 0 <= a < b < |r| ==> r[a] != r[b]
  {
    var r := RemoveAtAndSwap(s, i);
    forall a, b | 0 <= a < b < |r|
      ensures r[a] != r[b]
    {
      var sa := if a == i then |s| - 1 else a;
      var sb := if b == i then |s| - 1 else b;
      assert r[a] == s[sa] && r[b] == s[sb] && sa != sb;
    }
  }

  /** The removed window's decoration loop refreshes nothing, while the intended loop
      refreshes the remaining window: one window stays after the other is removed. */
  method DecorationAfterRemovalDiffers() returns (asWritten: seq<Dock>, intended: seq<Dock>)
    ensures asWritten == [] && |intended| == 1
  {
    var container := new ContainerWindowState();
    container.AddDocumentWindow(1, "Scene");
    container.AddDocumentWindow(2, "Material");
    var _ := container.RemoveDocumentWindow(2, false);
    assert container.documentWindows == [1] by {
      assert IndexOf([1, 2], 2) == Some(1);
    }
    asWritten := container.RefreshDecorationsAsWritten(2);
    intended := container.RefreshDecorations();
  }
}
